/**
  The `getargs::Argument` implementation for `&OsArgument` in `src/lib.rs`:
  how one command-line argument, seen as the bytes `OsStr::as_bytes` gives
  (raw bytes on Unix, WTF-8 on Windows), is recognised as the end of
  options and taken apart into short options.
*/
module GetargsOs {
  import opened Wrappers
  import opened Rfc3629
  import opened Utf8Bs

  /**
    One short option of a cluster such as `-abc`: a code point, or, on Unix,
    a byte that does not begin a well-formed UTF-8 character.
  */
  datatype ShortOpt = Codepoint(codepoint: bv32) | Byte(byte: bv8)

  /** ASCII `-`. */
  const HYPHEN: bv8 := 0x2D

  /** `ends_opts`: the argument is exactly `--`. */
  function EndsOpts(arg: seq<bv8>): (b: bool)
    ensures b <==> |arg| == 2 && arg[0] == HYPHEN && arg[1] == HYPHEN
  {
    arg == [HYPHEN, HYPHEN]
  }

  /**
    The remainder `consume_short_opt` hands back:
    `Some(rest).filter(|s| !s.is_empty())`.
  */
  function Remainder(rest: seq<bv8>): (r: Option<seq<bv8>>)
    ensures r.None? <==> rest == []
    ensures r.Some? ==> r.value == rest
  {
    if rest == [] then None else Some(rest)
  }

  /** The bytes a remainder stands for; `None` stands for none. */
  function RemainderBytes(r: Option<seq<bv8>>): seq<bv8> {
    match r
    case None => []
    case Some(rest) => rest
  }

  // ---------------------------------------------------------------------
  // consume_short_opt, Unix arm

  /**
    `std::str::from_utf8(slice).map(|str| str.chars().next())`, with the
    `Ok(Some(char))` outcome as `Some(char)` and every other outcome as
    `None`.
  */
  function FirstChar(slice: seq<bv8>): (r: Option<bv32>)
    ensures r.Some? ==> IsScalarValue(r.value)
  {
    match FromUtf8(slice)
    case Some(cs) => if cs == [] then None else Some(cs[0])
    case None => None
  }

  /**
    The Unix arm of `consume_short_opt`, on a non-empty argument (it reads
    the first byte with `get_unchecked(0)`). When the argument starts with a
    UTF8-char, its scalar value is taken and the char's bytes consumed;
    otherwise the first byte is taken alone.
  */
  function ConsumeShortOptUnix(arg: seq<bv8>): (r: (ShortOpt, Option<seq<bv8>>))
    requires arg != []
    ensures r.0.Codepoint? <==> LeadingCharLength(arg) > 0
    ensures r.0.Codepoint? ==>
      && IsScalarValue(r.0.codepoint)
      && r.0.codepoint == ScalarValue(arg[..LeadingCharLength(arg)])
      && r.1 == Remainder(arg[LeadingCharLength(arg)..])
    ensures r.0.Byte? ==> r.0 == Byte(arg[0]) && r.1 == Remainder(arg[1..])
  {
    var first := arg[0];
    var encodedLength := Utf8CharWidth(first);
    var decoded := if encodedLength <= |arg| then FirstChar(arg[..encodedLength]) else None;
    OptimisticDecode(arg);
    var (codepoint, rest) :=
      match decoded
      case Some(c) => (Codepoint(c), arg[encodedLength..])
      case None => (Byte(first), arg[1..]);
    (codepoint, Remainder(rest))
  }

  /**
    Looking the width up in the table and decoding exactly that many bytes
    finds the UTF8-char at the front of `arg` when there is one, and
    nothing otherwise.
  */
  lemma OptimisticDecode(arg: seq<bv8>)
    requires arg != []
    ensures var w := Utf8CharWidth(arg[0]);
      && (LeadingCharLength(arg) > 0 <==> w <= |arg| && FirstChar(arg[..w]).Some?)
      && (LeadingCharLength(arg) > 0 ==>
            && LeadingCharLength(arg) == w
            && FirstChar(arg[..w]) == Some(ScalarValue(arg[..w])))
  {
    var n := LeadingCharLength(arg);
    var w := Utf8CharWidth(arg[0]);
    if n > 0 {
      WidthOfUtf8Char(arg[..n]);
      FirstCharOfWidthPrefix(arg[..w]);
    } else if w <= |arg| && w > 0 {
      FirstCharOfWidthPrefix(arg[..w]);
    } else if w == 0 {
      assert arg[..w] == [];
    }
  }

  /**
    On a slice exactly as long as the width of its first byte, decoding
    succeeds just when the slice is one UTF8-char.
  */
  lemma FirstCharOfWidthPrefix(slice: seq<bv8>)
    requires slice != [] && Utf8CharWidth(slice[0]) == |slice|
    ensures FirstChar(slice).Some? <==> IsUtf8Char(slice)
    ensures IsUtf8Char(slice) ==> FirstChar(slice) == Some(ScalarValue(slice))
  {
    var n := LeadingCharLength(slice);
    if n > 0 {
      WidthOfUtf8Char(slice[..n]);
      assert slice[..n] == slice;
      FromUtf8OfChar(slice);
    }
  }

  // ---------------------------------------------------------------------
  // consume_short_opt, Windows arm

  /**
    The Windows arm of `consume_short_opt`: `next_code_point` on the
    argument's WTF-8 bytes, its result unwrapped unchecked. The argument must
    be non-empty and hold every byte the leading byte announces, as
    well-formed WTF-8 does. It always yields a code point, which is the one
    whose encoding starts the argument, surrogates included.
  */
  method ConsumeShortOptWindows(arg: seq<bv8>) returns (opt: ShortOpt, rest: Option<seq<bv8>>)
    requires arg != [] && CodePointLength(arg[0]) <= |arg|
    ensures opt == Codepoint(ScalarValue(arg[..CodePointLength(arg[0])]))
    ensures rest == Remainder(arg[CodePointLength(arg[0])..])
    ensures forall c | c <= 0x10FFFF && Encode(c) <= arg ::
      opt == Codepoint(c) && rest == Remainder(arg[|Encode(c)|..])
  {
    var codepoint, consumed := NextCodePoint(arg);
    opt := Codepoint(codepoint.value);
    rest := Remainder(arg[consumed..]);
  }

  /**
    Where the argument starts with a UTF8-char, both arms read the same
    bytes and yield the same code point (the Windows arm's result is fixed
    by its postcondition in terms of `CodePointLength`).
  */
  lemma ArmsAgreeOnUtf8(arg: seq<bv8>)
    requires arg != [] && LeadingCharLength(arg) > 0
    ensures CodePointLength(arg[0]) == LeadingCharLength(arg) <= |arg|
    ensures ConsumeShortOptUnix(arg) ==
      ( Codepoint(ScalarValue(arg[..CodePointLength(arg[0])])),
        Remainder(arg[CodePointLength(arg[0])..]) )
  {
    WidthOfUtf8Char(arg[..LeadingCharLength(arg)]);
    CodePointLengthAgreesWithWidth(arg[0]);
  }

  // ---------------------------------------------------------------------
  // consume_short_val

  /**
    `consume_short_val`: the rest of a cluster, taken whole as the value of
    the option before it.
  */
  function ConsumeShortVal(arg: seq<bv8>): (r: seq<bv8>)
    ensures r == arg
  {
    arg
  }

  // ---------------------------------------------------------------------
  // Taking a whole cluster apart

  /**
    The bytes a short option stands for: the UTF-8 encoding of a code point,
    or the byte itself. (No arm yields a code point above U+10FFFF; such a
    value would stand for no bytes.)
  */
  function UnitBytes(opt: ShortOpt): (s: seq<bv8>) {
    match opt
    case Codepoint(c) => if c <= 0x10FFFF then Encode(c) else []
    case Byte(b) => [b]
  }

  /**
    One step of the Unix arm takes between one and four bytes, exactly the
    bytes of the short option it yields, and leaves the rest as the
    remainder (a proper suffix, `None` once nothing is left). A value taken
    by `consume_short_val` from that remainder is the rest of the cluster.
  */
  lemma ConsumeShortOptUnixSplits(arg: seq<bv8>)
    requires arg != []
    ensures var (opt, rest) := ConsumeShortOptUnix(arg);
      && (opt.Codepoint? ==> opt.codepoint <= 0x10FFFF)
      && 1 <= |UnitBytes(opt)| <= 4
      && UnitBytes(opt) + ConsumeShortVal(RemainderBytes(rest)) == arg
      && (rest.None? <==> |UnitBytes(opt)| == |arg|)
  {
    var n := LeadingCharLength(arg);
    assert arg == arg[..n] + arg[n..];
    assert arg == [arg[0]] + arg[1..];
    if n > 0 {
      EncodeOfScalarValue(arg[..n]);
    }
  }

  /**
    The short options of a cluster body, from calling the Unix arm on each
    remainder until it is `None`, as the `getargs` engine does.
  */
  function ShortOptsUnix(arg: seq<bv8>): (opts: seq<ShortOpt>)
    ensures |opts| <= |arg|
    ensures forall i | 0 <= i < |opts| :: opts[i].Codepoint? ==> IsScalarValue(opts[i].codepoint)
    decreases |arg|
  {
    if arg == [] then
      []
    else
      var (opt, rest) := ConsumeShortOptUnix(arg);
      [opt] + ShortOptsUnix(RemainderBytes(rest))
  }

  /** The bytes of a sequence of short options, one after the other. */
  function Concat(opts: seq<ShortOpt>): seq<bv8> {
    if opts == [] then [] else UnitBytes(opts[0]) + Concat(opts[1..])
  }

  /** Taking a cluster apart loses nothing: its short options spell it out. */
  lemma {:induction false} ConcatOfShortOptsUnix(arg: seq<bv8>)
    ensures Concat(ShortOptsUnix(arg)) == arg
    decreases |arg|
  {
    if arg != [] {
      var (opt, rest) := ConsumeShortOptUnix(arg);
      var opts := ShortOptsUnix(arg);
      ConsumeShortOptUnixSplits(arg);
      ConcatOfShortOptsUnix(RemainderBytes(rest));
      assert opts[1..] == ShortOptsUnix(RemainderBytes(rest));
    }
  }

  /** Code points as short options. */
  function Codepoints(cs: seq<bv32>): (opts: seq<ShortOpt>)
    ensures |opts| == |cs|
    ensures forall i | 0 <= i < |cs| :: opts[i] == Codepoint(cs[i])
  {
    if cs == [] then [] else [Codepoint(cs[0])] + Codepoints(cs[1..])
  }

  /**
    On a cluster that is entirely UTF-8, the Unix arm yields exactly the
    string's scalar values, in order, and never a `Byte`.
  */
  lemma ShortOptsUnixOfUtf8(arg: seq<bv8>)
    requires FromUtf8(arg).Some?
    ensures ShortOptsUnix(arg) == Codepoints(FromUtf8(arg).value)
  {
    ShortOptsUnixOfUtf8Prefix(arg, []);
    assert arg + [] == arg;
    assert Codepoints(FromUtf8(arg).value) + [] == Codepoints(FromUtf8(arg).value);
  }

  /**
    A UTF-8 prefix of a cluster is taken apart char by char whatever
    follows it: the Unix arm never reads past the char it decodes.
  */
  lemma {:induction false} ShortOptsUnixOfUtf8Prefix(s: seq<bv8>, t: seq<bv8>)
    requires FromUtf8(s).Some?
    ensures ShortOptsUnix(s + t) == Codepoints(FromUtf8(s).value) + ShortOptsUnix(t)
    decreases |s|
  {
    if s == [] {
      assert s + t == t;
    } else {
      var n := LeadingCharLength(s);
      var rest := s[n..];
      var cs := FromUtf8(rest).value;
      var v := ScalarValue(s[..n]);
      assert FromUtf8(s).value == [v] + cs;
      FirstUtf8CharOfPrefix(s, t);
      ShortOptsUnixOfUtf8Prefix(rest, t);
      CodepointsCons(v, cs);
      ConcatAssociates([Codepoint(v)], Codepoints(cs), ShortOptsUnix(t));
    }
  }

  /** `Codepoints` of a sequence with a first element. */
  lemma CodepointsCons(v: bv32, cs: seq<bv32>)
    ensures Codepoints([v] + cs) == [Codepoint(v)] + Codepoints(cs)
  {
    assert ([v] + cs)[1..] == cs;
  }

  /**
    Concatenation associates; stated apart so that proofs about short
    options need not rediscover it among the byte-level facts.
  */
  lemma ConcatAssociates<T>(a: seq<T>, b: seq<T>, c: seq<T>)
    ensures a + (b + c) == (a + b) + c
  {
  }

  /** One step of `ShortOptsUnixOfUtf8Prefix`: the first char of `s` is taken. */
  lemma FirstUtf8CharOfPrefix(s: seq<bv8>, t: seq<bv8>)
    requires s != [] && LeadingCharLength(s) > 0
    ensures ShortOptsUnix(s + t) ==
      [Codepoint(ScalarValue(s[..LeadingCharLength(s)]))] + ShortOptsUnix(s[LeadingCharLength(s)..] + t)
  {
    FirstUtf8CharOfPrefixConsumed(s, t);
  }

  /** The Unix arm on a cluster that starts with the UTF-8 bytes `s`. */
  lemma FirstUtf8CharOfPrefixConsumed(s: seq<bv8>, t: seq<bv8>)
    requires s != [] && LeadingCharLength(s) > 0
    ensures s + t != []
    ensures ConsumeShortOptUnix(s + t) ==
      (Codepoint(ScalarValue(s[..LeadingCharLength(s)])), Remainder(s[LeadingCharLength(s)..] + t))
  {
    var n := LeadingCharLength(s);
    var st := s + t;
    assert st == s[..n] + (s[n..] + t);
    assert st[..n] == s[..n];
    assert st[n..] == s[n..] + t;
    LeadingCharLengthOfChar(s[..n], s[n..] + t);
  }

  /** A whole UTF8-char at the front of a cluster comes out as its code point. */
  lemma CharStep(c: seq<bv8>, t: seq<bv8>)
    requires IsUtf8Char(c)
    ensures ShortOptsUnix(c + t) == [Codepoint(ScalarValue(c))] + ShortOptsUnix(t)
  {
    assert c + [] == c;
    LeadingCharLengthOfChar(c, []);
    FirstUtf8CharOfPrefix(c, t);
    assert c[..|c|] == c;
    assert c[|c|..] + t == t;
  }

  /** A byte of width 0 at the front of a cluster comes out alone. */
  lemma ByteStep(b: bv8, t: seq<bv8>)
    requires Utf8CharWidth(b) == 0
    ensures ShortOptsUnix([b] + t) == [Byte(b)] + ShortOptsUnix(t)
  {
    var arg := [b] + t;
    var n := LeadingCharLength(arg);
    if n > 0 {
      WidthOfUtf8Char(arg[..n]);
    }
    assert arg[1..] == t;
  }

  /**
    A short option the Unix arm yields from its own bytes: a scalar value,
    or a byte that starts no UTF-8 sequence (a continuation byte, C0, C1 or
    F5..FF).
  */
  predicate StandsAlone(opt: ShortOpt) {
    match opt
    case Codepoint(c) => c <= 0x10FFFF && !IsSurrogate(c)
    case Byte(b) => 0x80 <= b <= 0xC1 || 0xF5 <= b
  }

  /** `Concat` distributes over concatenation. */
  lemma {:induction false} ConcatAppend(a: seq<ShortOpt>, b: seq<ShortOpt>)
    ensures Concat(a + b) == Concat(a) + Concat(b)
  {
    if a != [] {
      assert (a + b)[1..] == a[1..] + b;
      ConcatAppend(a[1..], b);
      ConcatAssociates(UnitBytes(a[0]), Concat(a[1..]), Concat(b));
    } else {
      assert a + b == b;
    }
  }

  /**
    The converse of `ConcatOfShortOptsUnix`: short options that each stand
    alone are found again, one by one, in the bytes they spell, whatever
    follows them.
  */
  lemma {:induction false} ShortOptsUnixOfConcat(opts: seq<ShortOpt>, t: seq<bv8>)
    requires forall i | 0 <= i < |opts| :: StandsAlone(opts[i])
    ensures ShortOptsUnix(Concat(opts) + t) == opts + ShortOptsUnix(t)
  {
    if opts == [] {
      assert Concat(opts) + t == t;
    } else {
      var rest := opts[1..];
      ShortOptsUnixOfConcat(rest, t);
      ConcatAssociates(UnitBytes(opts[0]), Concat(rest), t);
      UnitStep(opts[0], Concat(rest) + t);
      ConcatAssociates([opts[0]], rest, ShortOptsUnix(t));
      assert opts == [opts[0]] + rest;
    }
  }

  /** One step of `ShortOptsUnixOfConcat`. */
  lemma UnitStep(opt: ShortOpt, t: seq<bv8>)
    requires StandsAlone(opt)
    ensures ShortOptsUnix(UnitBytes(opt) + t) == [opt] + ShortOptsUnix(t)
  {
    match opt
    case Codepoint(c) =>
      EncodeIsUtf8CharIff(c);
      ScalarValueOfEncode(c);
      CharStep(Encode(c), t);
    case Byte(b) =>
      ByteStep(b, t);
  }

  /**
    The Unix arm resynchronises: at a byte that is not a UTF-8 continuation
    byte, whatever came before (truncated or ill-formed sequences included)
    has been taken apart on its own, and what follows is taken apart as if
    it stood alone.
  */
  lemma {:induction false} ShortOptsUnixAtBoundary(s: seq<bv8>, t: seq<bv8>)
    requires t == [] || !IsTail(t[0])
    ensures ShortOptsUnix(s + t) == ShortOptsUnix(s) + ShortOptsUnix(t)
    decreases |s|
  {
    if s == [] {
      assert s + t == t;
    } else {
      var n := LeadingCharLength(s);
      var m := if n > 0 then n else 1;
      BoundaryStep(s, t);
      ShortOptsUnixAtBoundary(s[m..], t);
      ConcatAssociates([ConsumeShortOptUnix(s).0], ShortOptsUnix(s[m..]), ShortOptsUnix(t));
    }
  }

  /** One step of `ShortOptsUnixAtBoundary`: the same unit is taken from `s` and from `s + t`. */
  lemma BoundaryStep(s: seq<bv8>, t: seq<bv8>)
    requires s != []
    requires t == [] || !IsTail(t[0])
    ensures var m := if LeadingCharLength(s) > 0 then LeadingCharLength(s) else 1;
      && m <= |s|
      && ShortOptsUnix(s) == [ConsumeShortOptUnix(s).0] + ShortOptsUnix(s[m..])
      && ShortOptsUnix(s + t) == [ConsumeShortOptUnix(s).0] + ShortOptsUnix(s[m..] + t)
  {
    var n := LeadingCharLength(s);
    var m := if n > 0 then n else 1;
    assert s + [] == s;
    assert s[m..] + [] == s[m..];
    if n > 0 {
      FirstUtf8CharOfPrefix(s, t);
      FirstUtf8CharOfPrefix(s, []);
    } else {
      LeadingCharLengthAtBoundary(s, t);
      FirstByteOfPrefix(s, t);
      FirstByteOfPrefix(s, []);
    }
  }

  /** The Unix arm on a cluster `s + t` where no UTF8-char starts: the first byte of `s` is taken. */
  lemma FirstByteOfPrefix(s: seq<bv8>, t: seq<bv8>)
    requires s != [] && LeadingCharLength(s + t) == 0
    ensures ShortOptsUnix(s + t) == [Byte(s[0])] + ShortOptsUnix(s[1..] + t)
  {
    var st := s + t;
    assert st[0] == s[0];
    assert st[1..] == s[1..] + t;
  }

  /**
    Whatever bytes precede it, a well-formed UTF-8 run that does not begin
    with a continuation byte comes out as the scalar values `from_utf8`
    finds in it.
  */
  lemma ShortOptsUnixResyncs(s: seq<bv8>, u: seq<bv8>)
    requires FromUtf8(u).Some?
    ensures ShortOptsUnix(s + u) == ShortOptsUnix(s) + Codepoints(FromUtf8(u).value)
  {
    if u != [] {
      var n := LeadingCharLength(u);
      assert IsUtf8Char(u[..n]);
    }
    ShortOptsUnixAtBoundary(s, u);
    ShortOptsUnixOfUtf8(u);
  }

  // ---------------------------------------------------------------------
  // Worked examples

  /**
    The body of the cluster `-ewehu` U+00AE U+E12B U+E14B U+E0DA followed by
    the bytes `FF FE FD`: the five ASCII letters (`e` is 0x65, `w` 0x77,
    `h` 0x68, `u` 0x75) and the four non-ASCII chars come out as code
    points, then each invalid byte on its own, then nothing.
  */
  lemma MixedCluster()
    ensures ShortOptsUnix([
      0x65, 0x77, 0x65, 0x68, 0x75, 0xC2, 0xAE, 0xEE, 0x84, 0xAB,
      0xEE, 0x85, 0x8B, 0xEE, 0x83, 0x9A, 0xFF, 0xFE, 0xFD]) ==
      [ Codepoint(0x65), Codepoint(0x77), Codepoint(0x65),
        Codepoint(0x68), Codepoint(0x75), Codepoint(0xAE),
        Codepoint(0xE12B), Codepoint(0xE14B), Codepoint(0xE0DA),
        Byte(0xFF), Byte(0xFE), Byte(0xFD) ]
  {
    var ascii: seq<bv8> := [0x65, 0x77, 0x65, 0x68, 0x75];
    var wide: seq<bv8> := [0xC2, 0xAE, 0xEE, 0x84, 0xAB, 0xEE, 0x85, 0x8B, 0xEE, 0x83, 0x9A];
    var invalid: seq<bv8> := [0xFF, 0xFE, 0xFD];
    MixedClusterAscii(wide + invalid);
    MixedClusterWide(invalid);
    MixedClusterInvalid();
    MixedClusterParts(ascii, wide, invalid);
  }

  /** The cluster and its short options, each in three parts. */
  lemma MixedClusterParts(ascii: seq<bv8>, wide: seq<bv8>, invalid: seq<bv8>)
    requires ascii == [0x65, 0x77, 0x65, 0x68, 0x75]
    requires wide == [0xC2, 0xAE, 0xEE, 0x84, 0xAB, 0xEE, 0x85, 0x8B, 0xEE, 0x83, 0x9A]
    requires invalid == [0xFF, 0xFE, 0xFD]
    ensures ascii + (wide + invalid) == [
      0x65, 0x77, 0x65, 0x68, 0x75, 0xC2, 0xAE, 0xEE, 0x84, 0xAB,
      0xEE, 0x85, 0x8B, 0xEE, 0x83, 0x9A, 0xFF, 0xFE, 0xFD]
    ensures
      [Codepoint(0x65), Codepoint(0x77), Codepoint(0x65), Codepoint(0x68), Codepoint(0x75)]
      + ([Codepoint(0xAE), Codepoint(0xE12B), Codepoint(0xE14B), Codepoint(0xE0DA)]
         + [Byte(0xFF), Byte(0xFE), Byte(0xFD)])
      == [ Codepoint(0x65), Codepoint(0x77), Codepoint(0x65),
           Codepoint(0x68), Codepoint(0x75), Codepoint(0xAE),
           Codepoint(0xE12B), Codepoint(0xE14B), Codepoint(0xE0DA),
           Byte(0xFF), Byte(0xFE), Byte(0xFD) ]
  {
  }

  /** The ASCII letters `ewehu` of `MixedCluster`. */
  lemma MixedClusterAscii(t: seq<bv8>)
    ensures ShortOptsUnix([0x65, 0x77, 0x65, 0x68, 0x75] + t) ==
      [ Codepoint(0x65), Codepoint(0x77), Codepoint(0x65),
        Codepoint(0x68), Codepoint(0x75) ] + ShortOptsUnix(t)
  {
    var opts := [
      Codepoint(0x65), Codepoint(0x77), Codepoint(0x65),
      Codepoint(0x68), Codepoint(0x75) ];
    assert Concat(opts) == [0x65, 0x77, 0x65, 0x68, 0x75];
    ShortOptsUnixOfConcat(opts, t);
  }

  /** The two- and three-byte chars of `MixedCluster`. */
  lemma MixedClusterWide(t: seq<bv8>)
    ensures ShortOptsUnix([0xC2, 0xAE, 0xEE, 0x84, 0xAB, 0xEE, 0x85, 0x8B, 0xEE, 0x83, 0x9A] + t) ==
      [Codepoint(0xAE), Codepoint(0xE12B), Codepoint(0xE14B), Codepoint(0xE0DA)] + ShortOptsUnix(t)
  {
    var opts := [Codepoint(0xAE), Codepoint(0xE12B), Codepoint(0xE14B), Codepoint(0xE0DA)];
    assert Concat(opts) == [0xC2, 0xAE, 0xEE, 0x84, 0xAB, 0xEE, 0x85, 0x8B, 0xEE, 0x83, 0x9A];
    ShortOptsUnixOfConcat(opts, t);
  }

  /** The bytes `FF FE FD` of `MixedCluster`, none of which starts a UTF-8 sequence. */
  lemma MixedClusterInvalid()
    ensures ShortOptsUnix([0xFF, 0xFE, 0xFD]) == [Byte(0xFF), Byte(0xFE), Byte(0xFD)]
  {
    var opts := [Byte(0xFF), Byte(0xFE), Byte(0xFD)];
    assert Concat(opts) + [] == [0xFF, 0xFE, 0xFD];
    ShortOptsUnixOfConcat(opts, []);
  }

  /**
    `E0 80 80` is an overlong encoding of U+0000 and `ED A0 80` encodes the
    surrogate U+D800: the Unix arm takes their first byte alone, while the
    Windows arm reads U+D800 from the WTF-8 bytes `ED A0 80`.
  */
  lemma IllFormedFallsBack()
    ensures ConsumeShortOptUnix([0xE0, 0x80, 0x80]) == (Byte(0xE0), Some([0x80, 0x80]))
    ensures ConsumeShortOptUnix([0xED, 0xA0, 0x80]) == (Byte(0xED), Some([0xA0, 0x80]))
    ensures CodePointLength(0xED) == 3 && ScalarValue([0xED, 0xA0, 0x80]) == 0xD800
  {
    var overlong: seq<bv8> := [0xE0, 0x80, 0x80];
    var surrogate: seq<bv8> := [0xED, 0xA0, 0x80];
    assert LeadingCharLength(overlong) == 0 by {
      assert !IsUtf8Char(overlong[..1]) && !IsUtf8Char(overlong[..2]) && !IsUtf8Char(overlong[..3]);
    }
    assert LeadingCharLength(surrogate) == 0 by {
      assert !IsUtf8Char(surrogate[..1]) && !IsUtf8Char(surrogate[..2]) && !IsUtf8Char(surrogate[..3]);
    }
  }

  /**
    A truncated sequence does not swallow what follows it: `E2 82` is the
    start of a three-byte char cut short, and the `C3 A9` (U+00E9) after it
    still comes out as one code point.
  */
  lemma TruncatedThenValid()
    ensures ShortOptsUnix([0xE2, 0x82, 0xC3, 0xA9]) == [Byte(0xE2), Byte(0x82), Codepoint(0xE9)]
  {
    var cut: seq<bv8> := [0xE2, 0x82];
    var valid: seq<bv8> := [0xC3, 0xA9];
    TruncatedThenValidParts(cut, valid);
    ShortOptsUnixAtBoundary(cut, valid);
    TruncatedPart();
    ValidPart();
  }

  /** The bytes and the short options of `TruncatedThenValid`, each in two parts. */
  lemma TruncatedThenValidParts(cut: seq<bv8>, valid: seq<bv8>)
    requires cut == [0xE2, 0x82] && valid == [0xC3, 0xA9]
    ensures cut + valid == [0xE2, 0x82, 0xC3, 0xA9]
    ensures [Byte(0xE2), Byte(0x82)] + [Codepoint(0xE9)] == [Byte(0xE2), Byte(0x82), Codepoint(0xE9)]
  {
  }

  /** `E2 82` on its own: no UTF8-char starts it, so both bytes come out alone. */
  lemma TruncatedPart()
    ensures ShortOptsUnix([0xE2, 0x82]) == [Byte(0xE2), Byte(0x82)]
  {
    var cut: seq<bv8> := [0xE2, 0x82];
    assert LeadingCharLength(cut) == 0 by {
      assert !IsUtf8Char(cut[..1]) && !IsUtf8Char(cut[..2]);
    }
    assert cut + [] == cut;
    FirstByteOfPrefix(cut, []);
    assert cut[1..] + [] == [0x82] + [];
    ByteStep(0x82, []);
  }

  /** `C3 A9` is the UTF8-char of U+00E9. */
  lemma ValidPart()
    ensures ShortOptsUnix([0xC3, 0xA9]) == [Codepoint(0xE9)]
  {
    var valid: seq<bv8> := [0xC3, 0xA9];
    assert valid + [] == valid;
    CharStep(valid, []);
  }
}
