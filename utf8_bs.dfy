/**
  The byte-level UTF-8 helpers of `src/utf8_bs.rs`, taken over from Rust's
  `std` because `OsStr` offers no way to find code point boundaries:

  - `utf8_char_width` (used by the Unix arm of `consume_short_opt`): the
    256-entry table giving, for a leading byte, the length of the UTF-8
    sequence it starts, or 0 when it starts none;
  - `next_code_point` (used by the Windows arm): the unchecked decoder that
    reads one code point from well-formed WTF-8.
*/
module Utf8Bs {
  import opened Wrappers
  import opened Rfc3629

  // ---------------------------------------------------------------------
  // UTF8_CHAR_WIDTH and utf8_char_width

  /** Width of the UTF-8 sequence each byte starts; one row per high nibble. */
  const UTF8_CHAR_WIDTH: seq<nat> :=
    //  1  2  3  4  5  6  7  8  9  A  B  C  D  E  F
      [ 1, 1, 1, 1, 1, 1, 1, 1, 1, 1, 1, 1, 1, 1, 1, 1 ] // 0
    + [ 1, 1, 1, 1, 1, 1, 1, 1, 1, 1, 1, 1, 1, 1, 1, 1 ] // 1
    + [ 1, 1, 1, 1, 1, 1, 1, 1, 1, 1, 1, 1, 1, 1, 1, 1 ] // 2
    + [ 1, 1, 1, 1, 1, 1, 1, 1, 1, 1, 1, 1, 1, 1, 1, 1 ] // 3
    + [ 1, 1, 1, 1, 1, 1, 1, 1, 1, 1, 1, 1, 1, 1, 1, 1 ] // 4
    + [ 1, 1, 1, 1, 1, 1, 1, 1, 1, 1, 1, 1, 1, 1, 1, 1 ] // 5
    + [ 1, 1, 1, 1, 1, 1, 1, 1, 1, 1, 1, 1, 1, 1, 1, 1 ] // 6
    + [ 1, 1, 1, 1, 1, 1, 1, 1, 1, 1, 1, 1, 1, 1, 1, 1 ] // 7
    + [ 0, 0, 0, 0, 0, 0, 0, 0, 0, 0, 0, 0, 0, 0, 0, 0 ] // 8
    + [ 0, 0, 0, 0, 0, 0, 0, 0, 0, 0, 0, 0, 0, 0, 0, 0 ] // 9
    + [ 0, 0, 0, 0, 0, 0, 0, 0, 0, 0, 0, 0, 0, 0, 0, 0 ] // A
    + [ 0, 0, 0, 0, 0, 0, 0, 0, 0, 0, 0, 0, 0, 0, 0, 0 ] // B
    + [ 0, 0, 2, 2, 2, 2, 2, 2, 2, 2, 2, 2, 2, 2, 2, 2 ] // C
    + [ 2, 2, 2, 2, 2, 2, 2, 2, 2, 2, 2, 2, 2, 2, 2, 2 ] // D
    + [ 3, 3, 3, 3, 3, 3, 3, 3, 3, 3, 3, 3, 3, 3, 3, 3 ] // E
    + [ 4, 4, 4, 4, 4, 0, 0, 0, 0, 0, 0, 0, 0, 0, 0, 0 ] // F

  /**
    `utf8_char_width`: the table entry for `b`. Its contract reads the table
    as byte ranges: 1 for ASCII, 2 for C2..DF, 3 for E0..EF, 4 for F0..F4,
    and 0 for continuation bytes, the overlong leaders C0 and C1, and
    F5..FF.
  */
  function Utf8CharWidth(b: bv8): (w: nat)
    ensures w <= 4
    ensures w == 1 <==> b <= 0x7F
    ensures w == 2 <==> 0xC2 <= b <= 0xDF
    ensures w == 3 <==> 0xE0 <= b <= 0xEF
    ensures w == 4 <==> 0xF0 <= b <= 0xF4
    ensures w == 0 <==> (0x80 <= b <= 0xC1 || 0xF5 <= b)
  {
    TableByRanges(b as int);
    UTF8_CHAR_WIDTH[b as int]
  }

  /** The table read by byte ranges (one lookup per group of rows). */
  lemma TableByRanges(i: int)
    requires 0 <= i < 0x100
    ensures UTF8_CHAR_WIDTH[i] ==
      if i < 0x80 then 1
      else if i < 0xC2 then 0
      else if i < 0xE0 then 2
      else if i < 0xF0 then 3
      else if i < 0xF5 then 4
      else 0
  {
    if i < 0x20 {
      TableRows01(i);
    } else if i < 0x40 {
      TableRows23(i);
    } else if i < 0x60 {
      TableRows45(i);
    } else if i < 0x80 {
      TableRows67(i);
    } else if i < 0xA0 {
      TableRows89(i);
    } else if i < 0xC2 {
      TableRowsAToC(i);
    } else if i < 0xE0 {
      TableRowsCToD(i);
    } else if i < 0xF0 {
      TableRowE(i);
    } else {
      TableRowF(i);
    }
  }

  lemma TableRows01(i: int)
    requires 0 <= i < 0x20
    ensures UTF8_CHAR_WIDTH[i] == 1
  {
  }

  lemma TableRows23(i: int)
    requires 0x20 <= i < 0x40
    ensures UTF8_CHAR_WIDTH[i] == 1
  {
  }

  lemma TableRows45(i: int)
    requires 0x40 <= i < 0x60
    ensures UTF8_CHAR_WIDTH[i] == 1
  {
  }

  lemma TableRows67(i: int)
    requires 0x60 <= i < 0x80
    ensures UTF8_CHAR_WIDTH[i] == 1
  {
  }

  lemma TableRows89(i: int)
    requires 0x80 <= i < 0xA0
    ensures UTF8_CHAR_WIDTH[i] == 0
  {
  }

  lemma TableRowsAToC(i: int)
    requires 0xA0 <= i < 0xC2
    ensures UTF8_CHAR_WIDTH[i] == 0
  {
  }

  lemma TableRowsCToD(i: int)
    requires 0xC2 <= i < 0xE0
    ensures UTF8_CHAR_WIDTH[i] == 2
  {
  }

  lemma TableRowE(i: int)
    requires 0xE0 <= i < 0xF0
    ensures UTF8_CHAR_WIDTH[i] == 3
  {
  }

  lemma TableRowF(i: int)
    requires 0xF0 <= i < 0x100
    ensures UTF8_CHAR_WIDTH[i] == if i < 0xF5 then 4 else 0
  {
  }

  /**
    The table agrees with the grammar of section 4 of RFC 3629: every
    UTF8-char is as long as the width of its first byte ...
  */
  lemma WidthOfUtf8Char(s: seq<bv8>)
    requires IsUtf8Char(s)
    ensures Utf8CharWidth(s[0]) == |s|
  {
  }

  /**
    ... and a byte starts some UTF8-char exactly when its width is not 0:
    `WidthWitness` builds one for every byte of non-zero width, and no
    UTF8-char starts with a byte of width 0.
  */
  lemma WidthWitnessIsUtf8Char(b: bv8)
    ensures Utf8CharWidth(b) != 0 ==> IsUtf8Char(WidthWitness(b)) && WidthWitness(b)[0] == b
    ensures Utf8CharWidth(b) == 0 <==> forall s | IsUtf8Char(s) :: s[0] != b
  {
    forall s | IsUtf8Char(s)
      ensures Utf8CharWidth(s[0]) != 0
    {
      WidthOfUtf8Char(s);
    }
  }

  /** A UTF8-char starting with `b`, for a byte of non-zero width. */
  function WidthWitness(b: bv8): (s: seq<bv8>)
    ensures |s| == Utf8CharWidth(b) && (|s| > 0 ==> s[0] == b)
  {
    match Utf8CharWidth(b)
    case 0 => []
    case 1 => [b]
    case 2 => [b, 0x80]
    case 3 => [b, if b == 0xE0 then 0xA0 else 0x80, 0x80]
    case _ => [b, if b == 0xF0 then 0x90 else 0x80, 0x80, 0x80]
  }

  // ---------------------------------------------------------------------
  // next_code_point

  /** Mask of the payload bits of a continuation byte. */
  const CONT_MASK: bv8 := 0x3F

  /**
    The number of bytes `next_code_point` reads for the leading byte `x`:
    it tests only `x < 0x80`, `x >= 0xE0` and `x >= 0xF0`.
  */
  function CodePointLength(x: bv8): (n: nat)
    ensures 1 <= n <= 4
  {
    if x < 0x80 then 1 else if x < 0xE0 then 2 else if x < 0xF0 then 3 else 4
  }

  /**
    `utf8_first_byte`: the payload bits of a leading byte of the given
    width; the result keeps only bits of `byte`, below bit `7 - width`, and
    keeps every bit of a byte that has none above.
  */
  function Utf8FirstByte(byte: bv8, width: nat): (r: bv32)
    requires width <= 7
    ensures r < 1 << (7 - width)
    ensures r & !(byte as bv32) == 0
    ensures byte as bv32 < 1 << (7 - width) ==> r == byte as bv32
  {
    (byte & (0x7F >> width)) as bv32
  }

  /** `utf8_acc_cont_byte`: the accumulator followed by six more payload bits. */
  function Utf8AccContByte(ch: bv32, byte: bv8): (r: bv32)
    ensures r == ch * 0x40 + byte as bv32 % 0x40
  {
    (ch << 6) | (byte & CONT_MASK) as bv32
  }

  /**
    `next_code_point` over the bytes an iterator has left: `None` on an empty
    iterator; otherwise the code point whose x bits (section 3 of RFC 3629)
    are in the first `CodePointLength(bytes[0])` bytes, and that many bytes
    consumed. Continuation bytes are not checked. The source reads them with
    `unwrap_unchecked`, so it demands that they be present.
  */
  method NextCodePoint(bytes: seq<bv8>) returns (ch: Option<bv32>, consumed: nat)
    requires bytes != [] ==> CodePointLength(bytes[0]) <= |bytes|
    ensures bytes == [] ==> ch == None && consumed == 0
    ensures bytes != [] ==>
      && consumed == CodePointLength(bytes[0])
      && ch == Some(ScalarValue(bytes[..consumed]))
    ensures forall c | c <= 0x10FFFF && Encode(c) <= bytes ::
      ch == Some(c) && consumed == |Encode(c)|
  {
    var i := 0;  // how far the iterator has advanced
    if i == |bytes| {
      return None, i;
    }
    var x := bytes[i];
    i := i + 1;
    if x < 128 {
      ch, consumed := Some(x as bv32), i;
      assert bytes[..i] == [x];
    } else {
      var init := Utf8FirstByte(x, 2);
      var y := bytes[i];
      i := i + 1;
      var acc := Utf8AccContByte(init, y);
      if x >= 0xE0 {
        var z := bytes[i];
        i := i + 1;
        var yz := Utf8AccContByte((y & CONT_MASK) as bv32, z);
        acc := (init << 12) | yz;
        if x >= 0xF0 {
          var w := bytes[i];
          i := i + 1;
          FourByteAccumulator(x, y, z, w, init, yz);
          acc := ((init & 7) << 18) | Utf8AccContByte(yz, w);
          assert bytes[..i] == [x, y, z, w];
        } else {
          ThreeByteAccumulator(x, y, z, init, yz);
          assert bytes[..i] == [x, y, z];
        }
      } else {
        TwoByteAccumulator(x, y, init);
        assert bytes[..i] == [x, y];
      }
      ch, consumed := Some(acc), i;
    }
    forall c | c <= 0x10FFFF && Encode(c) <= bytes {
      EncodedPrefix(bytes, c);
    }
  }

  /** The accumulator of a two-byte sequence holds its x bits. */
  lemma TwoByteAccumulator(x: bv8, y: bv8, init: bv32)
    requires 0x80 <= x < 0xE0
    requires init == Utf8FirstByte(x, 2)
    ensures Utf8AccContByte(init, y) == Bits2(x, y)
  {
  }

  /** The accumulator of a three-byte sequence holds its x bits. */
  lemma ThreeByteAccumulator(x: bv8, y: bv8, z: bv8, init: bv32, yz: bv32)
    requires 0xE0 <= x < 0xF0
    requires init == Utf8FirstByte(x, 2)
    requires yz == Utf8AccContByte((y & CONT_MASK) as bv32, z)
    ensures (init << 12) | yz == Bits3(x, y, z)
  {
  }

  /**
    The accumulator of a four-byte sequence holds its x bits; `init & 7`
    drops the bit the two-bit width left in place of the leader's marker.
  */
  lemma FourByteAccumulator(x: bv8, y: bv8, z: bv8, w: bv8, init: bv32, yz: bv32)
    requires 0xF0 <= x
    requires init == Utf8FirstByte(x, 2)
    requires yz == Utf8AccContByte((y & CONT_MASK) as bv32, z)
    ensures ((init & 7) << 18) | Utf8AccContByte(yz, w) == Bits4(x, y, z, w)
  {
  }

  /** A byte string that starts with the encoding of `c` has `c` as its first code point. */
  lemma EncodedPrefix(bytes: seq<bv8>, c: bv32)
    requires c <= 0x10FFFF && Encode(c) <= bytes
    ensures bytes != [] && CodePointLength(bytes[0]) == |Encode(c)|
    ensures ScalarValue(bytes[..|Encode(c)|]) == c
  {
    assert bytes[..|Encode(c)|] == Encode(c);
    CodePointLengthOfEncode(c);
    ScalarValueOfEncode(c);
  }

  /**
    `next_code_point` reads exactly the canonical encoding of any code point
    up to U+10FFFF, surrogates included (the WTF-8 generalisation).
  */
  lemma CodePointLengthOfEncode(c: bv32)
    requires c <= 0x10FFFF
    ensures CodePointLength(Encode(c)[0]) == |Encode(c)|
  {
    if c < 0x80 {
    } else if c < 0x800 {
      LeadLength(0xC0, c >> 6, 2);
    } else if c < 0x10000 {
      LeadLength(0xE0, c >> 12, 3);
    } else {
      LeadLength(0xF0, c >> 18, 4);
    }
  }

  lemma LeadLength(marker: bv8, high: bv32, n: nat)
    requires
      || (marker == 0xC0 && high < 0x20 && n == 2)
      || (marker == 0xE0 && high < 0x10 && n == 3)
      || (marker == 0xF0 && high < 0x08 && n == 4)
    ensures CodePointLength(Lead(marker, high)) == n
  {
  }

  /**
    On every byte that starts a UTF-8 sequence, `next_code_point` reads as
    many bytes as `utf8_char_width` gives.
  */
  lemma CodePointLengthAgreesWithWidth(b: bv8)
    requires Utf8CharWidth(b) != 0
    ensures CodePointLength(b) == Utf8CharWidth(b)
  {
  }
}
