# Bech32 / Bech32m and segwit addresses

This project models the Bech32 text codec (BIP-173, sections "Bech32" and
"Checksum"), its Bech32m variant (BIP-350, section "Bech32m") and the segwit
address layer built on both ("Segwit address format" in BIP-173, "Addresses
for segregated witness outputs" in BIP-350). It follows the reference
behaviour that the repository's test-vector generators drive and turn into
assertions for a Solidity `Bech32m` library. The parts are:

- **the 32-symbol alphabet** `qpzry9x8gf2tvdw0s3jn54khce6mua7l`;
- **its 128-entry reverse table** (sentinel 127) and character decoding over a `[start, stop)` range (module `Charset`);
- **the BCH checksum register** `polymod` (module `Register`);
- **HRP expansion, checksum creation and verification**, with the constants 1 and `0x2bc830a3` (module `Checksum`);
- **`convertbits`**, the regrouping of bit strings between widths, padded or strict (module `Conversion`);
- **`bech32_encode` / `bech32_decode`** (module `Bech32`);
- **segwit `encode` / `decode`** (module `Segwit`).

The codec functions themselves (`bech32_polymod`, `bech32_hrp_expand`,
`bech32_create_checksum`, `convertbits`, `bech32_encode`, `bech32_decode`,
`encode`, `decode`) live in the module `segwit_addr`. The generators import that
module; its source is not reproduced here, and the bodies follow the BIP-350
reference implementation of those functions, in particular:
- the `max_acc` mask in `convertbits`;
- the check order of `bech32_decode` (printable, mixed case, separator position, length, alphabet, checksum);
- the guard order of segwit `decode` (HRP, conversion, program length, version, version-0 length, variant).

Each "## Model" row cites the generator line that calls the function, or the
comment that quotes its body where a generator has one.

Bit operations on unbounded naturals (`<<`, `>>`, `&` masks, `^` and big-endian bit strings) are in module `Bits`. Shared types are in module `Types`.

Strings are byte sequences (`seq<Byte>`), because the Solidity side receives the UTF-8 bytes of each string. The constructions that update variables step by step are modelled as methods with loops, each proved against a specification function:

- the reverse-table fill (`Charset.BuildReverseCharset`, on an `array`);
- the character decoders: `decode`, which appends one index per character and returns None at the first character outside the alphabet (`Charset.DecodeWith`, run by `Charset.DecodeWithMap` on the reverse map), and `decodeCharactersBech32`, which does the same over a range through the reverse table (`Charset.DecodeCharacters`, one iteration in `Charset.DecodeNext`, one table lookup in `Charset.LookupSymbol`);
- the accumulator loops of `polymod` and `convertbits` (`Register.ComputePolymod` with `Register.ComputeStep`; `Conversion.ConvertBits` with `Conversion.Feed`, `Conversion.TakeGroups`, `Conversion.Emit` and `Conversion.Flush`).

Everything else in the reference is expressions and guard chains, modelled as functions.

**`convertbits`.** Its meaning is given on bit strings:
- the input values, each written in `from` bits, are concatenated;
- the result is cut into `to`-bit groups;
- in padded mode the leftover bits are zero-filled to a final group;
- in strict mode the leftover must be shorter than `from` and all zero.

The loop, with its `max_acc` mask, is proved to compute exactly that.

**`bech32_decode`.** It works in layers:
- printable bytes and uniform case;
- the lower-case string;
- the last separator;
- the length limits;
- the symbol characters;
- the checksum.

A failed decode is always `(empty hrp, empty data, UNKNOWN)`. A failed segwit decode is always `(0, empty program)`.

## Model

| member | source | states |
|---|---|---|
| Charset.CharsetSpellsAlphabet | python_ref/gen_reverse_charset.py:5 | CHARSET has 32 entries; entry i is the ASCII code of character i of the alphabet string |
| Charset.CharsetDistinct | python_ref/gen_reverse_charset.py:5-6 | no two alphabet positions hold the same character, so no loop iteration overwrites an earlier one |
| Charset.CharsetMembers | python_ref/gen_reverse_charset_test_data.py:8 | a code is in the alphabet iff it is a digit other than '1' or a lower-case letter other than 'b', 'i', 'o' |
| Charset.Find | python_ref/gen_reverse_charset_test_data.py:3 | the enumerate index of a character: the first position holding it, or -1 exactly when it is absent |
| Charset.Entry | python_ref/gen_reverse_charset_test_data.py:3 | for an alphabet character, an index below 32 whose CHARSET entry is that character; otherwise the sentinel 127 |
| Charset.EntryOfSymbol | python_ref/gen_reverse_charset.py:5-6 | looking up CHARSET[i] gives i back, for every i < 32 |
| Charset.FindIsEntry | python_ref/gen_reverse_charset_test_data.py:3 | the dictionary value of an alphabet character is its enumerate index |
| Charset.ReverseTableMeets | python_ref/gen_reverse_charset.py:4-6 | the reverse table has 128 entries, holds i at code CHARSET[i] and 127 at every other code |
| Charset.ReverseTableUnique | python_ref/gen_reverse_charset.py:4-6 | any table with that description equals the reverse table, so the result does not depend on the iteration order |
| Charset.BuildReverseCharset | python_ref/gen_reverse_charset.py:4-6 | filling 128 entries with 127 and then writing i at CHARSET[i] yields exactly that table |
| Charset.StageStep | python_ref/gen_reverse_charset.py:6 | one iteration writes index i at code CHARSET[i] (a code below 128), turning the table with the first i symbols into the one with i + 1 |
| Charset.ReverseTableInverts | python_ref/gen_reverse_charset.py:5-6 | a non-sentinel entry t[c] is below 32 and CHARSET[t[c]] == c; the entry is the sentinel iff c is not in the alphabet |
| Charset.ReverseTableEntries | python_ref/gen_reverse_charset.py:4-6 | every entry is below 32 or exactly 127 |
| Charset.ReverseTableExcluded | python_ref/gen_reverse_charset.py:4-6 | upper-case letters and '1', 'b', 'i', 'o' map to 127 |
| Charset.ToChars | python_ref/gen_ref_data_bech32_encode.py:19 | mapping symbols through CHARSET keeps the length and yields alphabet characters only |
| Charset.SymbolsOfChars | python_ref/gen_reverse_charset_test_data.py:10 | decoding the characters of symbols gives the symbols back |
| Charset.CharsOfSymbols | python_ref/gen_reverse_charset_test_data.py:10 | mapping the decoded symbols of alphabet characters gives the characters back |
| Charset.ReverseMap | python_ref/gen_reverse_charset_test_data.py:3 | the dictionary's keys are exactly the alphabet characters and each value is an index whose CHARSET entry is its key |
| Charset.ReverseMapMatchesTable | python_ref/gen_reverse_charset_test_data.py:3 | the dictionary and the 128-entry table agree: a code is a key iff its table entry is not the sentinel, and then the values are equal |
| Charset.DecodeWithMap | python_ref/gen_reverse_charset_test_data.py:5-11 | `decode` returns None iff some character is not in the alphabet; otherwise the output has the input's length and output[k] is the index of input[k] |
| Charset.DecodeWith | python_ref/gen_reverse_charset_test_data.py:5-11 | the same for the loop run with any dictionary meeting the description of the reverse map |
| Charset.DecodeWithMapIsSymbolsOf | python_ref/gen_reverse_charset_test_data.py:10-11 | an output meeting that description is the per-character decode of the input |
| Charset.DecodeCharacters | python_ref/gen_reverse_charset_test_data.py:29-35 | decodeCharactersBech32(data, start, stop) succeeds iff every character of the range is in the alphabet; it then returns the range's per-character decode, and otherwise NotBech32Character with an empty result |
| Charset.DecodeNext | python_ref/gen_reverse_charset_test_data.py:29-35 | one character of the range: on success the decode of the range read so far is extended by that character's index; on failure the whole range is not an alphabet string |
| Charset.LookupSymbol | python_ref/gen_reverse_charset_test_data.py:8-10 | a byte is accepted iff it is an alphabet character, its value is then its index, and bytes of 128 and above are rejected before the table is read |
| Charset.TableLookup | python_ref/gen_reverse_charset.py:4-6 | the table entry of a 7-bit code is its index, and the sentinel exactly for non-alphabet codes |
| Charset.DecodeCharactersSlice | python_ref/gen_reverse_charset_test_data.py:34 | decoding a range gives the same range of the whole string's decode, of length stop - start |
| Charset.AlphabetDecodes | python_ref/gen_reverse_charset_test_data.py:14 | the alphabet itself decodes to 0, 1, ..., 31 |
| Charset.RotatedAlphabetDecodes | python_ref/gen_reverse_charset_test_data.py:15 | the alphabet rotated by 10 decodes to 10, ..., 31, 0, ..., 9 |
| Charset.NonSymbolsRejected | python_ref/gen_reverse_charset_test_data.py:16-17 | "1ab" and the first UTF-8 byte of "\xff" are not alphabet strings |
| Register.ComputePolymod | python_ref/gen_ref_data_bech32_polymod.py:15 | the register loop starting from 1 computes the fold Polymod of the values |
| Register.ComputeStep | python_ref/gen_ref_data_bech32_polymod.py:15 | one step takes top = chk >> 25, shifts the low 25 bits left by 5, xors in v and then GEN[i] for each set bit i of top |
| Register.PolymodAppend | python_ref/gen_ref_data_bech32_polymod.py:6-8 | the register after a ++ b is the register after a, folded on through b |
| Register.PolymodFromAppend | python_ref/gen_ref_data_bech32_polymod.py:15 | folding a ++ b from any register is folding a, then b |
| Register.Step | python_ref/gen_ref_data_bech32_polymod.py:15 | from any register, one step on a value below 32 leaves a 30-bit register |
| Register.Polymod | python_ref/gen_ref_data_bech32_polymod.py:15 | for values all below 32 the final register is below 2^30 |
| Register.StepLinear | python_ref/gen_ref_data_bech32_polymod.py:15 | one step is linear over xor, in the register and in the value together |
| Register.PolymodFromLinear | python_ref/gen_ref_data_bech32_polymod.py:15 | folding from a ^ b equals folding a over as many zeros, xor-ed with folding b |
| Register.PolymodShort | python_ref/gen_ref_data_bech32_polymod.py:6-11 | for at most five values no generator fires: the result is the base-32 number with digits 1 followed by the values |
| Register.PolymodVectors | python_ref/gen_ref_data_bech32_polymod.py:6-9 | polymod of [0], [1], [0, 1] and [2, 3, 4] is 32, 33, 1025 and 34916 |
| Register.PolymodSixFires | python_ref/gen_ref_data_bech32_polymod.py:12 | for six values below 32, the register after the first five has top five bits exactly 1, so the sixth step xors in GEN[0]; the result differs from the plain base-32 reading |
| Checksum.HrpExpand | python_ref/gen_ref_data_bech32_hrp_expand.py:13 | the expansion of an HRP of n bytes has 2n + 1 values |
| Checksum.HrpExpandShape | python_ref/gen_ref_data_bech32_hrp_expand.py:13 | all values are below 32, the middle value is 0, each high part is below 8, and 32 * high + low is the HRP byte |
| Checksum.HrpExpandPrintable | python_ref/gen_ref_data_bech32_hrp_expand.py:7 | for printable bytes 33..126 every high part lies in 1..3 |
| Checksum.HrpExpandInjective | python_ref/gen_ref_data_bech32_hrp_expand.py:13 | two HRPs with the same expansion are equal |
| Checksum.HrpExpandVectors | python_ref/gen_ref_data_bech32_hrp_expand.py:4-5 | "a" expands to [3, 0, 1] and "tb" to [3, 3, 0, 20, 2] |
| Checksum.EncodingConst | python_ref/gen_ref_data_bech32_create_checksum.py:14 | the constant is a non-zero 30-bit value, and it is 1 exactly for the Bech32 variant (every variant other than Bech32m) |
| Checksum.VerifyChecksum | python_ref/gen_ref_data_spec_valid_bech32m.py:7-8 | a recognised variant is one whose constant equals polymod(expansion ++ values); UNKNOWN means polymod matches neither constant |
| Checksum.CreateChecksum | python_ref/gen_ref_data_bech32_create_checksum.py:16 | the checksum is six values, each below 32, for any data including byte values above 31 |
| Checksum.DigitsValue | python_ref/gen_ref_data_bech32_create_checksum.py:16 | the six 5-bit digits, most significant first, read back in base 32 give the 30-bit value |
| Checksum.ChecksumValue | python_ref/gen_ref_data_bech32_create_checksum.py:13-16 | the checksum's base-32 value is polymod(expansion ++ data ++ six zeros) xor the variant's constant |
| Checksum.AppendSix | python_ref/gen_ref_data_bech32_create_checksum.py:15 | appending six symbols c moves the register to the zero-padded residue xor the value of c |
| Checksum.ChecksumVerifies | python_ref/gen_ref_data_bech32_create_checksum.py:13-16 | polymod(expansion ++ data ++ checksum) is exactly the variant's constant |
| Checksum.ChecksumUnique | python_ref/gen_ref_data_bech32_create_checksum.py:13-16 | the checksum is the only six-symbol suffix that leaves that constant |
| Checksum.CreateThenVerify | python_ref/gen_ref_data_bech32_create_checksum.py:14-15 | checking data ++ checksum recognises the variant the checksum was made for |
| Checksum.VerifyThenCreate | python_ref/gen_ref_data_bech32_create_checksum.py:14-15 | six symbols that pass the check are the checksum of the recognised variant |
| Checksum.VariantsDiffer | python_ref/gen_ref_data_bech32_create_checksum.py:14-15 | for the same HRP and data the Bech32 and Bech32m checksums differ |
| Conversion.Regroup | python_ref/gen_ref_data_convertbits_8_to_5.py:15 | a result exists only when every input fits in `from` bits, and then every output group fits in `to` bits; in padded mode a result exists exactly when the input fits |
| Conversion.ConvertBits | python_ref/gen_ref_data_convertbits_8_to_5.py:15 | the accumulator loop returns exactly Regroup: None for a value that does not fit, otherwise the groups, padded or strictly checked |
| Conversion.Feed | python_ref/gen_ref_data_convertbits_8_to_5.py:15 | one input value keeps the loop invariant: emitted groups then the pending bits spell the input read so far |
| Conversion.TakeGroups | python_ref/gen_ref_data_convertbits_8_to_5.py:15 | the inner loop leaves fewer than `to` pending bits and keeps the emitted-plus-pending bit string |
| Conversion.Emit | python_ref/gen_ref_data_convertbits_8_to_5.py:15 | one emitted group is the top `to` pending bits |
| Conversion.Flush | python_ref/gen_ref_data_convertbits_5_to_8.py:19 | after the loop, padding appends the zero-filled leftover; strict mode rejects a leftover of `from` bits or more or one that is not all zero |
| Conversion.GroupsSplit | python_ref/gen_ref_data_convertbits_8_to_5.py:15 | every bit string is its groups, each below 2^to, followed by its leftover |
| Conversion.GroupsOfFlatten | python_ref/gen_ref_data_convertbits_8_to_5.py:15 | cutting fitting values' bits plus a short tail gives the values back and leaves the tail |
| Conversion.PadGroupsShape | python_ref/gen_ref_data_convertbits_8_to_5.py:15 | the padded groups fit and spell the input bits followed by fewer than `to` zeros |
| Conversion.PadGroupsUnique | python_ref/gen_ref_data_convertbits_8_to_5.py:15 | they are the only fitting groups that spell the input followed by fewer than `to` zeros |
| Conversion.StrictGroupsShape | python_ref/gen_ref_data_convertbits_5_to_8.py:19 | an accepted strict result fits and spells the input bits minus fewer than `from` trailing zeros |
| Conversion.StrictGroupsUnique | python_ref/gen_ref_data_convertbits_5_to_8.py:19 | fitting groups followed by fewer than `from` and `to` zeros are accepted and returned |
| Conversion.EightToFive | python_ref/gen_ref_data_convertbits_8_to_5.py:13-15 | padded 8-to-5 always succeeds with ceil(8n/5) symbols below 32 spelling the input bits plus zero fill |
| Conversion.FiveBytesEightSymbols | python_ref/gen_ref_data_convertbits_8_to_5.py:15 | every five bytes give exactly eight symbols |
| Conversion.FiveToEight | python_ref/gen_ref_data_convertbits_5_to_8.py:19 | an accepted strict 5-to-8 result has floor(5i/8) bytes whose bits are the input's minus fewer than five zero bits |
| Conversion.FiveToEightFails | python_ref/gen_ref_data_convertbits_5_to_8.py:17-19 | strict 5-to-8 fails iff 5i mod 8 is at least 5 or the last 5i mod 8 bits are not all zero |
| Conversion.FiveToEightBadLengths | python_ref/gen_ref_data_convertbits_5_to_8.py:17-19 | strict 5-to-8 fails for every length congruent to 1, 3 or 6 mod 8 |
| Conversion.BytesRoundTrip | python_ref/gen_ref_data_convertbits_5_to_8.py:15-19 | strict 5-to-8 of padded 8-to-5 of any bytes gives the bytes back |
| Conversion.SymbolsRoundTrip | python_ref/gen_ref_data_convertbits_5_to_8.py:19 | padded 8-to-5 of an accepted strict 5-to-8 result gives the symbols back |
| Conversion.LastBits | python_ref/gen_ref_data_convertbits_5_to_8.py:7-11 | last_bits(s) has length len(s) mod 40 and is what follows the whole 40-blocks of s |
| Conversion.LastBitsBlocks | python_ref/gen_ref_data_convertbits_5_to_8.py:7-11 | prefixing whole 40-blocks does not change last_bits |
| Bech32.ToLower | python_ref/gen_ref_data_spec_valid_bech32m.py:11 | lower-casing keeps the length and leaves no upper-case letter |
| Bech32.IsMixedCase | python_ref/gen_ref_data_spec_invalid_bech32.py:10-11 | a string is mixed case exactly when it holds both an upper-case and a lower-case letter |
| Bech32.RFind | python_ref/gen_ref_data_spec_valid_bech32m.py:7 | rfind returns a position holding the byte, after which it does not occur, or -1 |
| Bech32.RFindIsLast | python_ref/gen_ref_data_spec_valid_bech32m.py:7 | a position holding the byte with no later occurrence is what rfind returns |
| Bech32.SymbolsHaveNoSeparator | python_ref/gen_ref_data_bech32_encode.py:8 | alphabet characters are printable, lower case and never '1' |
| Bech32.Bech32Encode | python_ref/gen_ref_data_bech32_encode.py:19 | the output is the HRP, '1', then alphabet characters only, of length len(hrp) + len(data) + 7, with no '1' after the separator |
| Bech32.EncodedSymbols | python_ref/gen_ref_data_bech32_encode.py:19 | the characters after the separator decode to data ++ createChecksum(hrp, data, spec) |
| Bech32.EncodedData | python_ref/gen_ref_data_bech32_encode.py:19 | the characters right after the separator are the data's CHARSET characters |
| Bech32.ToCharsVector | python_ref/gen_ref_data_bech32_encode.py:7 | [0, 1, 30, 31] maps to "qp7l" |
| Bech32.EncodedLowerPrintable | python_ref/gen_ref_data_bech32_encode.py:19 | for a printable lower-case HRP the encoding is printable and lower case |
| Bech32.DecodeAt | python_ref/gen_ref_data_spec_valid_bech32m.py:7-8 | the checksum stage succeeds iff the symbols verify under either constant; it then returns the HRP before the separator, the variant VerifyChecksum recognises, and the data part's symbols without the last six |
| Bech32.DecodeLower | python_ref/gen_ref_data_spec_invalid_bech32.py:10-16 | on a lower-cased string: the failure result is empty HRP, empty data, UNKNOWN; success gives a known variant, a non-empty HRP prefix, symbols below 32 and total length at most 90 |
| Bech32.Bech32Decode | python_ref/gen_ref_data_spec_invalid_bech32.py:10-16 | the same for any string, with the HRP a prefix of the lower-cased input |
| Bech32.SeparatorIsLast | python_ref/gen_ref_data_spec_valid_bech32m.py:11 | in a string of separator, alphabet characters after it, the separator is what rfind finds |
| Bech32.DecodeAcceptsValid | python_ref/gen_ref_data_spec_valid_bech32m.py:7-8 | decoding succeeds iff the string is printable, uniform in case, at most 90 long, and has a '1' at position 1 or more followed by six or more alphabet characters that verify under Bech32 or Bech32m |
| Bech32.DecodeAtThenEncode | python_ref/gen_ref_data_bech32_decode.py:14 | re-encoding an accepted lower-case string gives it back |
| Bech32.DecodeThenEncode | python_ref/gen_ref_data_spec_valid_bech32m.py:7-12 | re-encoding a decoded string gives its lower-case form |
| Bech32.DecodeAtEncoded | python_ref/gen_ref_data_bech32_decode.py:14 | the checksum stage on an encoding returns its HRP, data and variant |
| Bech32.EncodeThenDecode | python_ref/gen_ref_data_bech32_decode.py:5-34 | decode(encode(hrp, data, spec)) is (hrp, data, spec, NoError) for a non-empty printable lower-case HRP, symbols below 32 and total length at most 90 |
| Bech32.DecodesToInputs | python_ref/gen_ref_data_bech32_decode.py:30-34 | if an encoding decodes with its own HRP, it decodes to its own data and variant |
| Bech32.CaseFacts | python_ref/gen_ref_data_spec_valid_address.py:17 | lower-casing is idempotent, agrees after upper-casing, and keeps printability |
| Bech32.DecodedHrpLower | python_ref/gen_ref_data_spec_valid_bech32m.py:11 | a decoded HRP is printable and has no upper-case letter |
| Bech32.DecodeIgnoresCase | python_ref/gen_ref_data_spec_valid_bech32m.py:7 | a string without mixed case decodes the same as its upper- and lower-case forms |
| Segwit.VariantFor | python_ref/gen_ref_data_encode.py:17 | the variant is never UNKNOWN, and it is Bech32 exactly for version 0 (Bech32m for every other version) |
| Segwit.ValidProgram | python_ref/gen_ref_data_spec_invalid_address.py:9-10 | a valid version fits one symbol (below 32), and a valid program's address data has between 5 and 65 symbols |
| Segwit.AddressData | python_ref/gen_ref_data_encode.py:17 | the data part is the version followed by padded 8-to-5 of the program: 1 + ceil(8n/5) symbols below 32 |
| Segwit.SegwitDecode | python_ref/gen_ref_data_spec_invalid_address.py:9-16 | a failed decode is version 0 with an empty program; a successful one has version at most 16 and a program of 2..40 bytes, 20 or 32 for version 0 |
| Segwit.DecodedParts | python_ref/gen_ref_data_spec_valid_address.py:7 | an accepted address is the Bech32 encoding of its HRP, its address data and the version's variant |
| Segwit.OtherHrpFails | python_ref/gen_ref_data_spec_valid_address.py:6-10 | an address accepted under one HRP is rejected under any other |
| Segwit.SegwitEncode | python_ref/gen_ref_data_encode.py:17 | whatever encode returns decodes back to the version and program under the same HRP |
| Segwit.AddressDataInjective | python_ref/gen_ref_data_encode.py:17 | different versions or programs give different data parts |
| Segwit.EncodedDecodes | python_ref/gen_ref_data_encode.py:17 | an encoding that decodes at all decodes to its own version and program |
| Segwit.DecodeOfParts | python_ref/gen_ref_data_spec_valid_address.py:7 | a string decoding to the HRP, the address data of a valid program and the version's variant is accepted with that version and program |
| Segwit.EncodeSucceeds | python_ref/gen_ref_data_encode.py:17 | encode succeeds iff the HRP is non-empty, printable and lower case, the program is valid for the version and the address fits in 90 characters |
| Segwit.EncodedAddressShape | python_ref/gen_ref_data_encode.py:17 | the address is the HRP, '1', CHARSET[witver], then the rest, of length len(hrp) + 1 + 1 + ceil(8n/5) + 6 |
| Segwit.VectorProgramsEncode | python_ref/gen_ref_data_encode.py:4-7 | with a two-letter HRP, version 0 with 20 or 32 bytes and version 1 with 32 bytes encode |
| Segwit.DecodeThenEncodeAddress | python_ref/gen_ref_data_spec_valid_address.py:24-25 | re-encoding a decoded address gives the lower-case input |
| Segwit.DecodeAcceptsValidAddress | python_ref/gen_ref_data_spec_invalid_address.py:8-10 | decoding succeeds iff the HRP is non-empty and the address is printable, uniform in case, at most 90 long, and lower-cases to the encoding of a valid version and program under that HRP |
| Segwit.AcceptedAddress | python_ref/gen_ref_data_spec_valid_address.py:7-11 | every address meeting that description decodes to its version and program |

## Left out

- Printing, hex formatting, the emitted Solidity source and the loops over test lists in every generator: they format output and compute nothing the codec needs.
- `byte_to_bin` / `iter_to_bin` in `gen_ref_data_convertbits_8_to_5.py`: debug formatting used only by commented-out code.
- `gen_ref_data_sha512.py` and `gen_ref_data_hmac_sha512.py`: thin calls into `hashlib`; SHA-512 (FIPS 180-4) is not part of this model.
- The concrete strings of the `tests` module (`VALID_BECH32M`, `INVALID_BECH32`, `VALID_ADDRESS`, `INVALID_ADDRESS`): `tests` is imported and its source is not reproduced here. The `segwit_addr` functions are modelled after the BIP-350 reference implementation, as stated above. Acceptance and rejection are modelled by the characterisations `Bech32.DecodeAcceptsValid` and `Segwit.DecodeAcceptsValidAddress`, not by concrete vectors. The `sha256` digests that seed the 5-to-8 vectors are not modelled either, so those lemmas quantify over all inputs.
- Charset.DecodeCharacters: it judges only the range `[start, stop)`. The generator's expected value is computed by decoding the whole string and then slicing, so a non-alphabet character outside the range would make it expect NotBech32Character where the model succeeds (for "q1" and range (0, 1) the model returns [0]). The generator's two failing strings are tested only on (0, len(test)): the whole of "1ab", and for "\xff" the first of its two UTF-8 bytes, 0xc3. Neither range is an alphabet string, so the two agree there (`Charset.NonSymbolsRejected`).
- Error codes other than NotBech32Character: the model has its own distinct variants and does not claim which one the Solidity tests expect. Where the reference returns `None` or `(None, None)`, the model returns a failure value carrying a reason.
- The error-detection guarantees of the BCH code (burst errors, single substitutions): the reference code does not state them.
- Conversion.ConvertBits: requires `to >= 1`. With `to == 0` the reference loop `while bits >= to` never ends once a value that fits in `from` bits has been read. It returns `[]` on empty input and None when the first value does not fit.
- Bech32.Bech32Encode: requires every data value below 32. The reference indexes CHARSET with each value and fails on anything larger.
- Segwit.SegwitEncode: requires `witver < 32` and a program of byte values. The reference indexes the alphabet with the version, and `convertbits` gives None on a value of 256 or more, which `encode` does not handle.
- Segwit.SegwitDecode: the model checks for empty data before the program conversion. The reference rejects empty data only through the program-length check, so the set of accepted addresses is the same and only the failure reason differs.
- Segwit.SegwitDecode: the HRP comparison is exact equality with the lower-cased decoded HRP, so an expected HRP with an upper-case letter never matches.
- Bech32.Bech32Encode: `bech32_encode` performs no validation of the HRP or the output length, and neither does the model. The conditions under which the encoding decodes back (a non-empty, printable, lower-case HRP and total length at most 90) are stated on `Bech32.EncodeThenDecode` and `Segwit.EncodeSucceeds`.
- Segwit.SegwitDecode: the checks run in the order of `decode`: the program conversion and its length, then the version, then the variant. The order affects only the failure reason.
