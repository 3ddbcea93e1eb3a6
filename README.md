# getargs-os: the short-option decoder, in Dafny

getargs-os lets the `getargs` option parser work on `OsStr` arguments, which
need not be Unicode. The `getargs::Argument` implementation for `&OsArgument`
sees an argument as the bytes `OsStr::as_bytes` gives. On Unix these are
arbitrary bytes. On Windows they are WTF-8.

This model covers that implementation:

- `ends_opts` recognises `--`.
- `consume_short_opt` takes one short option off the front of a cluster such
  as `-abc` and hands back the rest, or `None` when nothing is left. It has two
  arms:
  - The Unix arm is optimistic. It looks up the width of the first byte in a
    256-entry table and decodes exactly that many bytes with `from_utf8`. If
    that fails, it takes the first byte alone as a `Byte`.
  - The Windows arm decodes one code point of WTF-8 with the unchecked
    `next_code_point` copied from `std`.
- `consume_short_val` hands back the rest of the cluster unchanged.

The model has four modules:

- `Wrappers` holds `Option`.
- `Rfc3629` holds UTF-8 as RFC 3629 defines it: the UTF8-char grammar of
  section 4 and the bit layout of section 3. It also models `std::str::from_utf8`
  followed by `chars()`.
- `Utf8Bs` models `src/utf8_bs.rs`: the width table, `utf8_char_width` and
  `next_code_point` with its two helpers.
- `GetargsOs` models `src/lib.rs`: `ShortOpt`, `ends_opts`, both arms of
  `consume_short_opt` and `consume_short_val`. It also proves facts about
  calling the Unix arm repeatedly over a cluster, as the `getargs` engine does.

Modelling choices:

- Bytes are `bv8` (`u8`) and code points are `bv32` (`u32`).
- An argument is the sequence of its bytes. A remainder is an
  `Option<seq<bv8>>`.
- `next_code_point` advances an iterator. Here it is a method that walks a
  cursor over the bytes and returns how many it consumed.
- The Windows arm calls `next_code_point`, so it is a method too. Everything
  else in `src/lib.rs` is a function.

## Model

| member | source | states |
|---|---|---|
| GetargsOs.ShortOpt | src/lib.rs:163-175 | a short option is a code point (`u32`) or a single byte (`u8`), the two variants of the enum |
| GetargsOs.EndsOpts | src/lib.rs:198-201 | true exactly when the argument is the two bytes 0x2D 0x2D |
| GetargsOs.FirstChar | src/lib.rs:231 | `from_utf8` followed by `chars().next()`: a char it finds is a Unicode scalar value |
| GetargsOs.Remainder | src/lib.rs:239 | the remainder is `None` exactly when no bytes are left, and otherwise holds exactly the bytes left |
| GetargsOs.ConsumeShortOptUnix | src/lib.rs:224-240 | gives a `Codepoint` exactly when some prefix of the argument is a UTF8-char (RFC 3629, section 4). The code point is then that char's scalar value (never a surrogate, at most U+10FFFF), and the remainder is the bytes after the char. Otherwise it gives `Byte(first byte)` and the remainder is the bytes after the first one. |
| GetargsOs.OptimisticDecode | src/lib.rs:228-233 | decoding exactly `utf8_char_width(first)` bytes succeeds exactly when the argument starts with a UTF8-char, and then decodes that char whole; it fails when the width is 0, when fewer bytes are left, or when the bytes are ill-formed |
| GetargsOs.FirstCharOfWidthPrefix | src/lib.rs:231 | on a slice as long as its first byte's width, `from_utf8` yields a char exactly when the slice is one UTF8-char, and the char is its scalar value |
| GetargsOs.ConsumeShortOptWindows | src/lib.rs:217-222 | always yields a `Codepoint`, never a `Byte`: the x bits of the first `CodePointLength(arg[0])` bytes, with the remaining bytes as remainder (`None` when none remain). For every code point up to U+10FFFF whose encoding starts the argument, surrogates included, it yields that code point and consumes exactly its encoding. It requires the bytes its unchecked reads touch to be present. |
| GetargsOs.ArmsAgreeOnUtf8 | src/lib.rs:215-241 | where the argument starts with a UTF8-char, both arms consume the same number of bytes and give the same code point and remainder |
| GetargsOs.ConsumeShortVal | src/lib.rs:243-246 | the rest of a cluster is returned unchanged |
| GetargsOs.ConsumeShortOptUnixSplits | src/lib.rs:224-240 | one Unix-arm step consumes 1 to 4 bytes, exactly the bytes of the short option it yields. `consume_short_val` of the remainder gives the rest of the argument, so option bytes and remainder together make up the argument. The remainder is `None` exactly when the whole argument was consumed. |
| GetargsOs.ShortOptsUnix | src/lib.rs:224-240 | calling the Unix arm on each remainder until `None` terminates, yields at most one short option per byte, and every `Codepoint` it yields is a scalar value |
| GetargsOs.ConcatOfShortOptsUnix | src/lib.rs:224-240 | the short options of a cluster, written back as bytes, are the cluster: nothing is lost, duplicated or reordered |
| GetargsOs.ShortOptsUnixOfConcat | src/lib.rs:224-240 | the converse: scalar values, and bytes that start no UTF-8 sequence, written out and taken apart again come back unchanged, whatever follows them |
| GetargsOs.ByteStep | src/lib.rs:234-237 | a byte of table width 0 at the front of a cluster comes out as a `Byte` on its own |
| GetargsOs.CharStep | src/lib.rs:231-233 | a whole UTF8-char at the front of a cluster comes out as its scalar value, whatever follows it |
| GetargsOs.ShortOptsUnixOfUtf8Prefix | src/lib.rs:231-233 | a well-formed UTF-8 prefix of a cluster comes out as its scalar values in order, whatever follows it |
| GetargsOs.ShortOptsUnixOfUtf8 | src/lib.rs:231-233 | on a cluster that is entirely UTF-8, the Unix arm yields exactly the scalar values that `from_utf8` decodes, in order, and no `Byte` |
| GetargsOs.IllFormedFallsBack | src/lib.rs:234-237 | the Unix arm takes the overlong `E0 80 80` and the surrogate encoding `ED A0 80` one byte at a time. The Windows arm reads U+D800 from `ED A0 80`. |
| GetargsOs.ShortOptsUnixAtBoundary | src/lib.rs:228-239 | the Unix arm resynchronises: at any byte that is not a UTF-8 continuation byte, the options of `s + t` are the options of `s` followed by those of `t`, whatever truncated or ill-formed sequence `s` ends with |
| GetargsOs.ShortOptsUnixResyncs | src/lib.rs:228-239 | a well-formed UTF-8 run after any bytes comes out as exactly the scalar values `from_utf8` finds in it |
| GetargsOs.TruncatedThenValid | src/lib.rs:234-237 | the truncated `E2 82` followed by `C3 A9` gives `Byte(0xE2)`, `Byte(0x82)`, then U+00E9 |
| Rfc3629.LeadingCharLengthAtBoundary | src/lib.rs:231 | where `t` is empty or starts with a byte that is not a UTF8-tail, the UTF8-char at the front of `s + t` is the one at the front of `s` |
| Rfc3629.TailsOfUtf8Char | src/lib.rs:231 | every byte of a UTF8-char after the first is a UTF8-tail |
| GetargsOs.MixedCluster | src/test.rs:11-42 | the cluster `ewehu` C2 AE, EE 84 AB, EE 85 8B, EE 83 9A, FF FE FD gives the code points e w e h u U+00AE U+E12B U+E14B U+E0DA, then `Byte(0xFF)`, `Byte(0xFE)`, `Byte(0xFD)`, then nothing |
| Utf8Bs.Utf8CharWidth | src/utf8_bs.rs:64-69 | the table entry is 1 for 00..7F, 2 for C2..DF, 3 for E0..EF, 4 for F0..F4, and 0 for 80..C1 and F5..FF |
| Utf8Bs.TableByRanges | src/utf8_bs.rs:44-62 | the 256 entries of `UTF8_CHAR_WIDTH`, read as byte ranges |
| Utf8Bs.WidthOfUtf8Char | src/utf8_bs.rs:44-62 | the table agrees with RFC 3629: every UTF8-char is as long as its first byte's width |
| Utf8Bs.WidthWitnessIsUtf8Char | src/utf8_bs.rs:44-62 | both directions: every byte of non-zero width starts some UTF8-char (a witness is built), and no UTF8-char starts with a byte of width 0 |
| Utf8Bs.CodePointLength | src/utf8_bs.rs:22-35 | `next_code_point` reads 1 to 4 bytes, decided by the tests `x < 128`, `x >= 0xE0` and `x >= 0xF0` |
| Utf8Bs.Utf8FirstByte | src/utf8_bs.rs:11-14 | `utf8_first_byte` keeps only bits of the byte, all below bit `7 - width`, and keeps the byte whole when it has no higher bit |
| Utf8Bs.Utf8AccContByte | src/utf8_bs.rs:16-19 | `utf8_acc_cont_byte` is the accumulator times 64 (wrapping at 32 bits) plus the low six bits of the byte |
| Utf8Bs.NextCodePoint | src/utf8_bs.rs:8-41 | returns `None` and consumes nothing on empty input. Otherwise it consumes `CodePointLength(x)` bytes and returns their x bits (RFC 3629, section 3). For every code point up to U+10FFFF whose canonical encoding starts the input, it returns that code point and consumes exactly the encoding. Every unchecked read is in bounds when the announced bytes are present. |
| Utf8Bs.TwoByteAccumulator | src/utf8_bs.rs:24-26 | for a leading byte below E0 the accumulator is `(x & 0x1F) << 6 \| (y & 0x3F)` |
| Utf8Bs.ThreeByteAccumulator | src/utf8_bs.rs:28-32 | for E0..EF the accumulator is `(x & 0x0F) << 12 \| (y & 0x3F) << 6 \| (z & 0x3F)` |
| Utf8Bs.FourByteAccumulator | src/utf8_bs.rs:34-37 | for F0 and above the accumulator is `(x & 0x07) << 18 \| (y & 0x3F) << 12 \| (z & 0x3F) << 6 \| (w & 0x3F)` |
| Utf8Bs.EncodedPrefix | src/utf8_bs.rs:21-40 | input that starts with the encoding of `c` has `c` as the x bits of its first `CodePointLength` bytes |
| Utf8Bs.CodePointLengthOfEncode | src/utf8_bs.rs:22-35 | the number of bytes `next_code_point` reads for the first byte of an encoding is the encoding's length |
| Utf8Bs.CodePointLengthAgreesWithWidth | src/utf8_bs.rs:64-69 | wherever the width table is not 0, `next_code_point` reads as many bytes as the table gives |
| Rfc3629.ScalarValueOfEncode | src/utf8_bs.rs:21-40 | decoding the x bits of the canonical encoding of any code point up to U+10FFFF, surrogates included, gives it back |
| Rfc3629.Encode | src/utf8_bs.rs:21-40 | the canonical encoding takes 1, 2, 3 or 4 bytes for code points below 0x80, 0x800, 0x10000 and up to 0x10FFFF |
| Rfc3629.EncodeIsUtf8CharIff | src/lib.rs:231 | the encoding of a code point is accepted by `from_utf8` exactly when the code point is not a surrogate |
| Rfc3629.EncodeOfScalarValue | src/lib.rs:231-233 | every UTF8-char is the canonical encoding of its value, and that value is a scalar value: the grammar admits no overlong form, no surrogate and nothing above U+10FFFF |
| Rfc3629.LeadFixesLength | src/lib.rs:231 | two UTF8-chars with the same first byte have the same length |
| Rfc3629.LeadingCharLength | src/lib.rs:231 | a non-zero result marks a prefix that is a UTF8-char. Zero means that no prefix is one. |
| Rfc3629.LeadingCharLengthOfChar | src/lib.rs:231 | UTF-8 is prefix-free: a UTF8-char followed by anything is found whole |
| Rfc3629.FromUtf8 | src/lib.rs:231 | `from_utf8` followed by `chars()`: yields at most one value per byte, each a scalar value |
| Rfc3629.FromUtf8OfChar | src/lib.rs:231 | a single UTF8-char decodes to its scalar value alone |
| Rfc3629.FromUtf8OfEncodeAll | src/lib.rs:231 | encoding scalar values and decoding the bytes gives them back |
| Rfc3629.EncodeAllOfFromUtf8 | src/lib.rs:231 | decoding well-formed UTF-8 and encoding the values gives back the bytes |

## Left out

- `parse_long_opt` and `parse_short_cluster` (src/lib.rs:203-213) are left out. They call `getargs`' own implementation for `&[u8]`, and the `getargs` crate is not part of this model.
- Converting between `OsStr` and bytes is left out: `as_bytes`, `from_bytes`, `From` and `Deref` (src/lib.rs:80-133). These reinterpret memory. The model works on the byte sequence directly.
- The `os!` and `osb!` macros (src/lib.rs:249-266) are compile-time conversions and are left out.
- The conversions and comparisons with `&str` behind a feature flag are left out.
- The `Debug`, `Hash` and `PartialEq` implementations are left out. They delegate to `OsStr`.
- The `From` conversions into `ShortOpt` are left out. They are one-line constructors.
- The `getargs::Options` engine is not modelled. `ShortOptsUnix` stands in for how the engine calls `consume_short_opt` repeatedly on one cluster. The engine's other states and its errors are left out.
- examples/os_str.rs is left out. It only reads process arguments and prints them.
- Platform selection by `cfg` is not modelled. The two arms of `consume_short_opt` are separate members, and no lemma assumes which one is compiled.
- Repeated calls of the Windows arm are not modelled. No WTF-8 well-formedness predicate shows that each remainder of a well-formed argument again has all the bytes `next_code_point` reads. Only single calls are covered, by `ConsumeShortOptWindows` and `ArmsAgreeOnUtf8`.
- `std::str::from_utf8` is not transcribed. `Rfc3629.FromUtf8` models it as the grammar of section 4 of RFC 3629, which is what the function accepts.
- GetargsOs.ConsumeShortOptWindows: requires only that the bytes its unchecked reads touch are present. That is weaker than "the argument is well-formed WTF-8", which Windows guarantees. So its contract also covers byte strings that no Windows `OsStr` holds.
- Utf8Bs.Utf8FirstByte: the contract does not fix the result for every width. It says the result keeps only bits of the byte below bit `7 - width`, not that it keeps all of them when higher bits are set. For width 2, the only width the source passes, the accumulator lemmas fix the exact value.
