/**
  UTF-8 as defined by RFC 3629: the byte grammar of section 4, the bit layout
  of section 3, and a model of the standard library's `std::str::from_utf8`
  followed by reading out the `char`s, which the Unix arm of
  `consume_short_opt` calls on a width-sized prefix.

  Bytes are `bv8` (Rust's `u8`), code points `bv32` (Rust's `u32`).
  Facts about single bytes are stated on byte-valued helpers, and facts about
  sequences only mention those helpers: the solver handles each kind cheaply
  on its own but not both at once.
*/
module Rfc3629 {
  import opened Wrappers

  /** UTF8-tail (section 4): %x80-BF. */
  predicate IsTail(b: bv8) {
    0x80 <= b <= 0xBF
  }

  /** UTF8-1 (section 4): %x00-7F. */
  predicate IsChar1(b0: bv8) {
    b0 <= 0x7F
  }

  /** UTF8-2 (section 4): %xC2-DF UTF8-tail. */
  predicate IsChar2(b0: bv8, b1: bv8) {
    0xC2 <= b0 <= 0xDF && IsTail(b1)
  }

  /**
    UTF8-3 (section 4): %xE0 %xA0-BF UTF8-tail / %xE1-EC 2( UTF8-tail ) /
    %xED %x80-9F UTF8-tail / %xEE-EF 2( UTF8-tail ).
  */
  predicate IsChar3(b0: bv8, b1: bv8, b2: bv8) {
    && (|| (b0 == 0xE0 && 0xA0 <= b1 <= 0xBF)
        || (0xE1 <= b0 <= 0xEC && IsTail(b1))
        || (b0 == 0xED && 0x80 <= b1 <= 0x9F)
        || (0xEE <= b0 <= 0xEF && IsTail(b1)))
    && IsTail(b2)
  }

  /**
    UTF8-4 (section 4): %xF0 %x90-BF 2( UTF8-tail ) / %xF1-F3 3( UTF8-tail ) /
    %xF4 %x80-8F 2( UTF8-tail ).
  */
  predicate IsChar4(b0: bv8, b1: bv8, b2: bv8, b3: bv8) {
    && (|| (b0 == 0xF0 && 0x90 <= b1 <= 0xBF)
        || (0xF1 <= b0 <= 0xF3 && IsTail(b1))
        || (b0 == 0xF4 && 0x80 <= b1 <= 0x8F))
    && IsTail(b2) && IsTail(b3)
  }

  /** `s` is exactly one UTF8-char of the grammar in section 4. */
  predicate IsUtf8Char(s: seq<bv8>) {
    || (|s| == 1 && IsChar1(s[0]))
    || (|s| == 2 && IsChar2(s[0], s[1]))
    || (|s| == 3 && IsChar3(s[0], s[1], s[2]))
    || (|s| == 4 && IsChar4(s[0], s[1], s[2], s[3]))
  }

  /** The code points U+D800..U+DFFF reserved for UTF-16 surrogate pairs. */
  predicate IsSurrogate(c: bv32) {
    0xD800 <= c <= 0xDFFF
  }

  /** A Unicode scalar value: what a Rust `char` may hold. */
  predicate IsScalarValue(c: bv32) {
    c <= 0x10FFFF && !IsSurrogate(c)
  }

  /**
    The canonical (shortest) 1-4 byte encoding of a code point, following the
    table of section 3. Surrogates are encoded like any other value, which is
    what WTF-8 does; section 4 then rejects those encodings.
  */
  function Encode(c: bv32): (s: seq<bv8>)
    requires c <= 0x10FFFF
    ensures 1 <= |s| <= 4
    ensures |s| == 1 <==> c < 0x80
    ensures |s| == 2 <==> 0x80 <= c < 0x800
    ensures |s| == 3 <==> 0x800 <= c < 0x10000
  {
    if c < 0x80 then [c as bv8]
    else if c < 0x800 then [Lead(0xC0, c >> 6), Tail(c)]
    else if c < 0x10000 then [Lead(0xE0, c >> 12), Tail(c >> 6), Tail(c)]
    else [Lead(0xF0, c >> 18), Tail(c >> 12), Tail(c >> 6), Tail(c)]
  }

  /** A leading byte: the length marker with the highest bits of the code point below it. */
  function Lead(marker: bv8, high: bv32): bv8
    requires high < 0x40
  {
    marker | high as bv8
  }

  /** A UTF8-tail byte carrying the low six bits of `bits`. */
  function Tail(bits: bv32): bv8 {
    (0x80 | (bits & 0x3F)) as bv8
  }

  /**
    The x bits of a 1-4 byte sequence (section 3): the bits of the first byte
    below its length marker, followed by the low six bits of every other byte.
    For a first byte whose marker does not match the length, these are simply
    the low 7, 5, 4 or 3 bits of that byte.
  */
  function ScalarValue(s: seq<bv8>): bv32
    requires 1 <= |s| <= 4
  {
    if |s| == 1 then Bits1(s[0])
    else if |s| == 2 then Bits2(s[0], s[1])
    else if |s| == 3 then Bits3(s[0], s[1], s[2])
    else Bits4(s[0], s[1], s[2], s[3])
  }

  /** The seven payload bits of a one-byte sequence. */
  function Bits1(b0: bv8): bv32 {
    (b0 & 0x7F) as bv32
  }

  /** The 5 + 6 payload bits of a two-byte sequence. */
  function Bits2(b0: bv8, b1: bv8): bv32 {
    ((b0 & 0x1F) as bv32 << 6) | (b1 & 0x3F) as bv32
  }

  /** The 4 + 6 + 6 payload bits of a three-byte sequence. */
  function Bits3(b0: bv8, b1: bv8, b2: bv8): bv32 {
    ((b0 & 0x0F) as bv32 << 12) | ((b1 & 0x3F) as bv32 << 6) | (b2 & 0x3F) as bv32
  }

  /** The 3 + 6 + 6 + 6 payload bits of a four-byte sequence. */
  function Bits4(b0: bv8, b1: bv8, b2: bv8, b3: bv8): bv32 {
    ((b0 & 0x07) as bv32 << 18) | ((b1 & 0x3F) as bv32 << 12)
      | ((b2 & 0x3F) as bv32 << 6) | (b3 & 0x3F) as bv32
  }

  // ---------------------------------------------------------------------
  // Encoding and decoding a single code point

  /** Decoding the encoding of any code point, surrogates included, gives it back. */
  lemma ScalarValueOfEncode(c: bv32)
    requires c <= 0x10FFFF
    ensures ScalarValue(Encode(c)) == c
  {
    if c < 0x80 {
    } else if c < 0x800 {
      TwoBytePayload(c);
    } else if c < 0x10000 {
      ThreeBytePayload(c);
    } else {
      FourBytePayload(c);
    }
  }

  lemma TwoBytePayload(c: bv32)
    requires 0x80 <= c < 0x800
    ensures Bits2(Lead(0xC0, c >> 6), Tail(c)) == c
  {
  }

  lemma ThreeBytePayload(c: bv32)
    requires 0x800 <= c < 0x10000
    ensures Bits3(Lead(0xE0, c >> 12), Tail(c >> 6), Tail(c)) == c
  {
  }

  lemma FourBytePayload(c: bv32)
    requires 0x10000 <= c <= 0x10FFFF
    ensures Bits4(Lead(0xF0, c >> 18), Tail(c >> 12), Tail(c >> 6), Tail(c)) == c
  {
  }

  /**
    The encoding of a code point is well-formed UTF-8 exactly when the code
    point is not a surrogate: the encodings of U+D800..U+DFFF are the
    sequences ED A0 80 .. ED BF BF that section 4 excludes.
  */
  lemma EncodeIsUtf8CharIff(c: bv32)
    requires c <= 0x10FFFF
    ensures IsUtf8Char(Encode(c)) <==> !IsSurrogate(c)
  {
    if c < 0x80 {
    } else if c < 0x800 {
      TwoByteWellFormed(c);
    } else if c < 0x10000 {
      ThreeByteWellFormed(c);
    } else {
      FourByteWellFormed(c);
    }
  }

  lemma TwoByteWellFormed(c: bv32)
    requires 0x80 <= c < 0x800
    ensures IsChar2(Lead(0xC0, c >> 6), Tail(c))
  {
  }

  lemma ThreeByteWellFormed(c: bv32)
    requires 0x800 <= c < 0x10000
    ensures IsChar3(Lead(0xE0, c >> 12), Tail(c >> 6), Tail(c)) <==> !IsSurrogate(c)
  {
  }

  lemma FourByteWellFormed(c: bv32)
    requires 0x10000 <= c <= 0x10FFFF
    ensures IsChar4(Lead(0xF0, c >> 18), Tail(c >> 12), Tail(c >> 6), Tail(c))
  {
  }

  /**
    Every well-formed UTF8-char is the canonical encoding of a scalar value:
    the grammar admits no overlong form, no surrogate and nothing above
    U+10FFFF.
  */
  lemma EncodeOfScalarValue(s: seq<bv8>)
    requires IsUtf8Char(s)
    ensures IsScalarValue(ScalarValue(s))
    ensures Encode(ScalarValue(s)) == s
  {
    var c := ScalarValue(s);
    if |s| == 1 {
      assert Encode(c) == [s[0]];
    } else if |s| == 2 {
      TwoByteCanonical(s[0], s[1], c);
      TwoByteEncoding(s, c);
    } else if |s| == 3 {
      ThreeByteCanonical(s[0], s[1], s[2], c);
      ThreeByteEncoding(s, c);
    } else {
      FourByteCanonical(s[0], s[1], s[2], s[3], c);
      FourByteEncoding(s, c);
    }
  }

  lemma TwoByteCanonical(b0: bv8, b1: bv8, c: bv32)
    requires IsChar2(b0, b1) && c == Bits2(b0, b1)
    ensures 0x80 <= c < 0x800 && IsScalarValue(c)
    ensures Lead(0xC0, c >> 6) == b0 && Tail(c) == b1
  {
  }

  lemma ThreeByteCanonical(b0: bv8, b1: bv8, b2: bv8, c: bv32)
    requires IsChar3(b0, b1, b2) && c == Bits3(b0, b1, b2)
    ensures 0x800 <= c < 0x10000 && IsScalarValue(c)
    ensures Lead(0xE0, c >> 12) == b0 && Tail(c >> 6) == b1 && Tail(c) == b2
  {
  }

  lemma FourByteCanonical(b0: bv8, b1: bv8, b2: bv8, b3: bv8, c: bv32)
    requires IsChar4(b0, b1, b2, b3) && c == Bits4(b0, b1, b2, b3)
    ensures 0x10000 <= c <= 0x10FFFF && IsScalarValue(c)
    ensures Lead(0xF0, c >> 18) == b0 && Tail(c >> 12) == b1 && Tail(c >> 6) == b2 && Tail(c) == b3
  {
  }

  lemma TwoByteEncoding(s: seq<bv8>, c: bv32)
    requires |s| == 2 && 0x80 <= c < 0x800
    requires Lead(0xC0, c >> 6) == s[0] && Tail(c) == s[1]
    ensures Encode(c) == s
  {
    assert s == [s[0], s[1]];
  }

  lemma ThreeByteEncoding(s: seq<bv8>, c: bv32)
    requires |s| == 3 && 0x800 <= c < 0x10000
    requires Lead(0xE0, c >> 12) == s[0] && Tail(c >> 6) == s[1] && Tail(c) == s[2]
    ensures Encode(c) == s
  {
    assert s == [s[0], s[1], s[2]];
  }

  lemma FourByteEncoding(s: seq<bv8>, c: bv32)
    requires |s| == 4 && 0x10000 <= c <= 0x10FFFF
    requires Lead(0xF0, c >> 18) == s[0] && Tail(c >> 12) == s[1] && Tail(c >> 6) == s[2] && Tail(c) == s[3]
    ensures Encode(c) == s
  {
    assert s == [s[0], s[1], s[2], s[3]];
  }

  // ---------------------------------------------------------------------
  // Where one UTF8-char ends

  /** The leading byte of a UTF8-char fixes its length. */
  lemma LeadFixesLength(s: seq<bv8>, u: seq<bv8>)
    requires IsUtf8Char(s) && IsUtf8Char(u) && s[0] == u[0]
    ensures |s| == |u|
  {
  }

  /**
    The length of the UTF8-char at the front of `s`, trying the lengths the
    grammar allows from the shortest up; 0 when no prefix of `s` is one.
  */
  function LeadingCharLength(s: seq<bv8>): (n: nat)
    ensures n <= 4 && n <= |s|
    ensures n > 0 ==> IsUtf8Char(s[..n])
    ensures n == 0 ==> forall k | 0 <= k <= |s| :: !IsUtf8Char(s[..k])
  {
    if 1 <= |s| && IsUtf8Char(s[..1]) then 1
    else if 2 <= |s| && IsUtf8Char(s[..2]) then 2
    else if 3 <= |s| && IsUtf8Char(s[..3]) then 3
    else if 4 <= |s| && IsUtf8Char(s[..4]) then 4
    else 0
  }

  /** UTF-8 is prefix-free: a UTF8-char is found whole, whatever follows it. */
  lemma LeadingCharLengthOfChar(s: seq<bv8>, t: seq<bv8>)
    requires IsUtf8Char(s)
    ensures LeadingCharLength(s + t) == |s|
  {
    var st := s + t;
    forall k | 1 <= k <= |s| && IsUtf8Char(st[..k])
      ensures k == |s|
    {
      LeadFixesLength(s, st[..k]);
    }
    assert st[..|s|] == s;
  }

  /** Every byte of a UTF8-char after the first is a UTF8-tail ... */
  lemma TailsOfUtf8Char(c: seq<bv8>)
    requires IsUtf8Char(c)
    ensures forall i | 1 <= i < |c| :: IsTail(c[i])
  {
  }

  /** ... so a sequence with another byte after its first is no UTF8-char. */
  lemma NoUtf8CharAcrossLead(c: seq<bv8>, i: nat)
    requires 1 <= i < |c| && !IsTail(c[i])
    ensures !IsUtf8Char(c)
  {
    if IsUtf8Char(c) {
      TailsOfUtf8Char(c);
      assert false;
    }
  }

  /**
    A UTF8-char never runs on into a byte that is not a UTF8-tail: where `t`
    starts with such a byte (or is empty), the char at the front of `s + t`
    is the char at the front of `s`.
  */
  lemma LeadingCharLengthAtBoundary(s: seq<bv8>, t: seq<bv8>)
    requires s != []
    requires t == [] || !IsTail(t[0])
    ensures LeadingCharLength(s + t) == LeadingCharLength(s)
    ensures LeadingCharLength(s) > 0 ==> (s + t)[..LeadingCharLength(s)] == s[..LeadingCharLength(s)]
  {
    var st := s + t;
    forall k | |s| < k <= |st|
      ensures !IsUtf8Char(st[..k])
    {
      assert st[..k][|s|] == t[0];
      NoUtf8CharAcrossLead(st[..k], |s|);
    }
    forall k | 0 <= k <= |s|
      ensures st[..k] == s[..k]
    {
    }
  }

  // ---------------------------------------------------------------------
  // std::str::from_utf8 followed by str::chars

  /**
    The scalar values of `s` when `s` is UTF8-octets (section 4), that is,
    when `std::str::from_utf8` accepts it; `None` when it returns an error.
  */
  function FromUtf8(s: seq<bv8>): (r: Option<seq<bv32>>)
    ensures r.Some? ==> |r.value| <= |s|
    ensures r.Some? ==> forall i | 0 <= i < |r.value| :: IsScalarValue(r.value[i])
    decreases |s|
  {
    if s == [] then
      Some([])
    else
      var n := LeadingCharLength(s);
      if n == 0 then
        None
      else
        match FromUtf8(s[n..])
        case None => None
        case Some(rest) =>
          EncodeOfScalarValue(s[..n]);
          Some([ScalarValue(s[..n])] + rest)
  }

  /** The bytes of a sequence of code points, each encoded as by `Encode`. */
  function EncodeAll(cs: seq<bv32>): seq<bv8>
    requires forall i | 0 <= i < |cs| :: cs[i] <= 0x10FFFF
  {
    if cs == [] then [] else Encode(cs[0]) + EncodeAll(cs[1..])
  }

  /** A single UTF8-char decodes to the one scalar value it encodes. */
  lemma FromUtf8OfChar(s: seq<bv8>)
    requires IsUtf8Char(s)
    ensures FromUtf8(s) == Some([ScalarValue(s)])
  {
    LeadingCharLengthOfChar(s, []);
    assert s + [] == s;
    assert s[|s|..] == [];
    assert [ScalarValue(s)] + [] == [ScalarValue(s)];
  }

  /** Decoding the encoding of a string of scalar values gives it back. */
  lemma {:induction false} FromUtf8OfEncodeAll(cs: seq<bv32>)
    requires forall i | 0 <= i < |cs| :: cs[i] <= 0x10FFFF && !IsSurrogate(cs[i])
    ensures FromUtf8(EncodeAll(cs)) == Some(cs)
  {
    if cs != [] {
      var head := Encode(cs[0]);
      var s := EncodeAll(cs);
      EncodeIsUtf8CharIff(cs[0]);
      ScalarValueOfEncode(cs[0]);
      LeadingCharLengthOfChar(head, EncodeAll(cs[1..]));
      assert s[..|head|] == head;
      assert s[|head|..] == EncodeAll(cs[1..]);
      FromUtf8OfEncodeAll(cs[1..]);
      assert [cs[0]] + cs[1..] == cs;
    }
  }

  /**
    Whatever `from_utf8` accepts is the encoding of the scalar values it
    returns: there is no second way to spell a string in UTF-8.
  */
  lemma {:induction false} EncodeAllOfFromUtf8(s: seq<bv8>)
    requires FromUtf8(s).Some?
    ensures EncodeAll(FromUtf8(s).value) == s
  {
    if s != [] {
      var n := LeadingCharLength(s);
      assert s == s[..n] + s[n..];
      var cs := FromUtf8(s).value;
      var rest := FromUtf8(s[n..]).value;
      EncodeOfScalarValue(s[..n]);
      assert cs == [ScalarValue(s[..n])] + rest;
      assert cs[1..] == rest;
      EncodeAllOfFromUtf8(s[n..]);
      assert Encode(cs[0]) == s[..n];
    }
  }
}
