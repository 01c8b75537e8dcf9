/**
 * The Bech32 string format of BIP-173 ("Bech32") with the Bech32m constant
 * of BIP-350: human-readable part, the separator '1', then the data and the
 * six checksum symbols written with the 32-character alphabet. Strings are
 * the bytes the decoder receives.
 */
module Bech32 {
  import opened Types
  import opened Register
  import opened Charset
  import opened Checksum

  const SEPARATOR: Byte := 49  // '1'
  const MAX_LENGTH: nat := 90

  // ---------------------------------------------------------------------------
  // ASCII case and search

  function LowerChar(c: Byte): Byte
  {
    if IsUpper(c) then c + 32 else c
  }

  function UpperChar(c: Byte): Byte
  {
    if IsLower(c) then c - 32 else c
  }

  /** str.lower() on ASCII text. */
  function ToLower(s: seq<Byte>): (r: seq<Byte>)
    ensures |r| == |s| && forall i :: 0 <= i < |s| ==> !IsUpper(r[i])
  {
    seq(|s|, i requires 0 <= i < |s| => LowerChar(s[i]))
  }

  /** str.upper() on ASCII text. */
  function ToUpper(s: seq<Byte>): (r: seq<Byte>)
    ensures |r| == |s| && forall i :: 0 <= i < |s| ==> !IsLower(r[i])
  {
    seq(|s|, i requires 0 <= i < |s| => UpperChar(s[i]))
  }

  predicate AllPrintable(s: seq<Byte>)
  {
    forall i :: 0 <= i < |s| ==> IsPrintable(s[i])
  }

  /** bech.lower() != bech and bech.upper() != bech */
  predicate IsMixedCase(s: seq<Byte>)
    ensures IsMixedCase(s) <==>
      (exists i :: 0 <= i < |s| && IsUpper(s[i])) && (exists j :: 0 <= j < |s| && IsLower(s[j]))
  {
    LowerChanges(s);
    UpperChanges(s);
    ToLower(s) != s && ToUpper(s) != s
  }

  /** Lower-casing changes a string exactly when it holds an upper-case letter. */
  lemma LowerChanges(s: seq<Byte>)
    ensures ToLower(s) != s <==> exists i :: 0 <= i < |s| && IsUpper(s[i])
  {
    if exists i :: 0 <= i < |s| && IsUpper(s[i]) {
      var i :| 0 <= i < |s| && IsUpper(s[i]);
      assert ToLower(s)[i] != s[i];
    } else {
      assert forall i :: 0 <= i < |s| ==> ToLower(s)[i] == s[i];
    }
  }

  /** Upper-casing changes a string exactly when it holds a lower-case letter. */
  lemma UpperChanges(s: seq<Byte>)
    ensures ToUpper(s) != s <==> exists j :: 0 <= j < |s| && IsLower(s[j])
  {
    if exists j :: 0 <= j < |s| && IsLower(s[j]) {
      var j :| 0 <= j < |s| && IsLower(s[j]);
      assert ToUpper(s)[j] != s[j];
    } else {
      assert forall j :: 0 <= j < |s| ==> ToUpper(s)[j] == s[j];
    }
  }

  /** str.rfind(c): the last index holding c, or -1. */
  function RFind(s: seq<Byte>, c: Byte): (r: int)
    ensures -1 <= r < |s|
    ensures r >= 0 ==> s[r] == c
    ensures forall j :: r < j < |s| ==> s[j] != c
  {
    if s == [] then -1
    else if s[|s| - 1] == c then |s| - 1
    else RFind(s[..|s| - 1], c)
  }

  /** The only index holding c with no c after it is what rfind returns. */
  lemma RFindIsLast(s: seq<Byte>, c: Byte, pos: nat)
    requires pos < |s| && s[pos] == c
    requires forall j :: pos < j < |s| ==> s[j] != c
    ensures RFind(s, c) == pos
  {
  }

  /** No alphabet character is the separator. */
  lemma SymbolsHaveNoSeparator(t: seq<Byte>)
    requires AllSymbols(t)
    ensures forall j :: 0 <= j < |t| ==> t[j] != SEPARATOR && IsPrintable(t[j]) && !IsUpper(t[j])
  {
  }

  // ---------------------------------------------------------------------------
  // bech32_encode

  /** hrp + '1' + the characters of data ++ checksum. */
  function Bech32Encode(hrp: seq<Byte>, data: seq<nat>, spec: Encoding): (r: seq<Byte>)
    requires Below32(data)
    ensures |r| == |hrp| + |data| + 7
    ensures r[..|hrp|] == hrp && r[|hrp|] == SEPARATOR
    ensures AllSymbols(r[|hrp| + 1..])
    ensures forall j :: |hrp| < j < |r| ==> r[j] != SEPARATOR
  {
    var combined := Combined(data, CreateChecksum(hrp, data, spec));
    var tail := ToChars(combined);
    JoinShape(hrp, tail);
    hrp + [SEPARATOR] + tail
  }

  /** data ++ checksum as symbol values. */
  function Combined(data: seq<nat>, checksum: seq<nat>): (c: seq<Byte>)
    requires Below32(data) && Below32(checksum)
    ensures |c| == |data| + |checksum| && AllBelow32(c)
  {
    data + checksum
  }

  /** The shape of hrp + '1' + tail when the tail is made of alphabet characters. */
  lemma JoinShape(hrp: seq<Byte>, tail: seq<Byte>)
    requires AllSymbols(tail)
    ensures var r := hrp + [SEPARATOR] + tail;
      && r[..|hrp|] == hrp && r[|hrp|] == SEPARATOR && r[|hrp| + 1..] == tail
      && forall j :: |hrp| < j < |r| ==> r[j] != SEPARATOR
  {
    var r := hrp + [SEPARATOR] + tail;
    SymbolsHaveNoSeparator(tail);
    assert forall j :: |hrp| < j < |r| ==> r[j] == tail[j - |hrp| - 1];
  }

  /** The symbols after the separator are the data followed by the checksum. */
  lemma EncodedSymbols(hrp: seq<Byte>, data: seq<nat>, spec: Encoding)
    requires Below32(data)
    ensures var s := Bech32Encode(hrp, data, spec);
      SymbolsOf(s[|hrp| + 1..]) == data + CreateChecksum(hrp, data, spec)
  {
    var combined := Combined(data, CreateChecksum(hrp, data, spec));
    JoinShape(hrp, ToChars(combined));
    SymbolsOfChars(combined);
  }

  /** The first characters after the separator spell the data, symbol by symbol. */
  lemma EncodedData(hrp: seq<Byte>, data: seq<nat>, spec: Encoding)
    requires Below32(data)
    ensures var s := Bech32Encode(hrp, data, spec);
      s[|hrp| + 1..|hrp| + 1 + |data|] == ToChars(data)
  {
    var c := CreateChecksum(hrp, data, spec);
    var tail := ToChars(Combined(data, c));
    var s := Bech32Encode(hrp, data, spec);
    JoinShape(hrp, tail);
    assert s[|hrp| + 1..] == tail;
    ToCharsPrefix(data, c);
    assert s[|hrp| + 1..|hrp| + 1 + |data|] == tail[..|data|];
  }

  /** The characters of data ++ checksum begin with the characters of data. */
  lemma ToCharsPrefix(data: seq<nat>, checksum: seq<nat>)
    requires Below32(data) && Below32(checksum)
    ensures ToChars(Combined(data, checksum))[..|data|] == ToChars(data)
  {
    var t := ToChars(Combined(data, checksum));
    assert forall k :: 0 <= k < |data| ==> t[..|data|][k] == ToChars(data)[k];
  }

  /** [0, 1, 30, 31] is written "qp7l". */
  lemma ToCharsVector()
    ensures ToChars([0, 1, 30, 31]) == [113, 112, 55, 108]
  {
  }

  /** A lower-case part, the separator and alphabet characters make a printable lower-case string. */
  lemma JoinedLowerPrintable(hrp: seq<Byte>, s: seq<Byte>)
    requires AllPrintable(hrp) && forall i :: 0 <= i < |hrp| ==> !IsUpper(hrp[i])
    requires |hrp| < |s| && s[..|hrp|] == hrp && s[|hrp|] == SEPARATOR && AllSymbols(s[|hrp| + 1..])
    ensures AllPrintable(s) && ToLower(s) == s
  {
    var pos := |hrp|;
    var tail := s[pos + 1..];
    SymbolsHaveNoSeparator(tail);
    forall j | 0 <= j < |s|
      ensures IsPrintable(s[j]) && !IsUpper(s[j])
    {
      if j < pos {
        assert s[j] == hrp[j];
      } else if j > pos {
        assert s[j] == tail[j - pos - 1];
      }
    }
    assert forall j :: 0 <= j < |s| ==> ToLower(s)[j] == s[j];
  }

  /** An encoding is printable and already in lower case. */
  lemma EncodedLowerPrintable(hrp: seq<Byte>, data: seq<nat>, spec: Encoding)
    requires AllPrintable(hrp) && forall i :: 0 <= i < |hrp| ==> !IsUpper(hrp[i])
    requires Below32(data)
    ensures var s := Bech32Encode(hrp, data, spec);
      AllPrintable(s) && ToLower(s) == s
  {
    JoinedLowerPrintable(hrp, Bech32Encode(hrp, data, spec));
  }

  // ---------------------------------------------------------------------------
  // bech32_decode

  /** What bech32Decode returns: (hrp, data, encoding, error). */
  datatype Decoded = Decoded(hrp: seq<Byte>, data: seq<nat>, spec: Encoding, err: DecodeError)

  /** The failure result: empty hrp and data, UNKNOWN encoding. */
  function Failure(err: DecodeError): Decoded
  {
    Decoded([], [], UNKNOWN, err)
  }

  /** The checksum test once the separator is known, on the lowercased string. */
  function DecodeAt(lower: seq<Byte>, pos: nat): (r: Decoded)
    requires 1 <= pos && pos + 7 <= |lower| && AllSymbols(lower[pos + 1..])
    ensures r.err == NoError <==> VerifyChecksum(lower[..pos], SymbolsOf(lower[pos + 1..])) != UNKNOWN
    ensures r.err != NoError ==> r == Failure(InvalidChecksum)
    ensures r.err == NoError ==> r.spec != UNKNOWN && r.hrp == lower[..pos] && Below32(r.data)
    ensures r.err == NoError ==> |r.hrp| + |r.data| + 7 == |lower|
    ensures r.err == NoError ==>
      && r.spec == VerifyChecksum(lower[..pos], SymbolsOf(lower[pos + 1..]))
      && r.data == SymbolsOf(lower[pos + 1..])[..|r.data|]
  {
    var hrp := lower[..pos];
    var data: seq<nat> := SymbolsOf(lower[pos + 1..]);
    var spec := VerifyChecksum(hrp, data);
    if spec == UNKNOWN then Failure(InvalidChecksum)
    else Decoded(hrp, data[..|data| - 6], spec, NoError)
  }

  /** The checks on the lowercased string: where the separator is, the lengths, the alphabet. */
  function DecodeLower(lower: seq<Byte>): (r: Decoded)
    ensures r.err != NoError ==> r == Failure(r.err)
    ensures r.err == NoError ==> r.spec != UNKNOWN && |r.hrp| >= 1 && Below32(r.data)
    ensures r.err == NoError ==> |r.hrp| + |r.data| + 7 == |lower| <= MAX_LENGTH
    ensures r.err == NoError ==> r.hrp == lower[..|r.hrp|]
  {
    var pos := RFind(lower, SEPARATOR);
    if pos == -1 then Failure(SeparatorNotFound)
    else if pos == 0 then Failure(EmptyHrp)
    else if pos + 7 > |lower| then Failure(ChecksumTooShort)
    else if |lower| > MAX_LENGTH then Failure(TooLong)
    else if !AllSymbols(lower[pos + 1..]) then Failure(NotBech32Character)
    else DecodeAt(lower, pos)
  }

  /**
   * bech32_decode: the checks in the reference order, then the human-readable
   * part and the data (without the checksum) of the lowercased string.
   */
  function Bech32Decode(s: seq<Byte>): (r: Decoded)
    ensures r.err != NoError ==> r == Failure(r.err)
    ensures r.err == NoError ==> r.spec != UNKNOWN && |r.hrp| >= 1 && Below32(r.data)
    ensures r.err == NoError ==> |r.hrp| + |r.data| + 7 == |s| <= MAX_LENGTH
    ensures r.err == NoError ==> r.hrp == ToLower(s)[..|r.hrp|]
  {
    if !AllPrintable(s) then Failure(InvalidCharacter)
    else if IsMixedCase(s) then Failure(MixedCase)
    else DecodeLower(ToLower(s))
  }

  /** `pos` is a separator followed only by alphabet characters that carry a valid checksum. */
  predicate SeparatorAt(lower: seq<Byte>, pos: int)
  {
    && 1 <= pos && pos + 7 <= |lower|
    && lower[pos] == SEPARATOR
    && AllSymbols(lower[pos + 1..])
    && VerifyChecksum(lower[..pos], SymbolsOf(lower[pos + 1..])) != UNKNOWN
  }

  /**
   * The rules of BIP-173 ("Bech32") for a valid string, stated without the
   * decoder's search: at most 90 printable characters of one case, and a
   * separator with a non-empty part before it and a checksummed data part of
   * at least six alphabet characters after it.
   */
  predicate IsValidBech32(s: seq<Byte>)
  {
    && |s| <= MAX_LENGTH && AllPrintable(s) && !IsMixedCase(s)
    && exists pos :: 0 <= pos < |s| && SeparatorAt(ToLower(s), pos)
  }

  /** A separator position as the rules describe it is the last '1'. */
  lemma SeparatorIsLast(lower: seq<Byte>, pos: int)
    requires SeparatorAt(lower, pos)
    ensures RFind(lower, SEPARATOR) == pos
  {
    var t := lower[pos + 1..];
    SymbolsHaveNoSeparator(t);
    assert forall j :: pos < j < |lower| ==> lower[j] == t[j - pos - 1];
    RFindIsLast(lower, SEPARATOR, pos);
  }

  /** The decoder accepts exactly the strings the rules call valid. */
  lemma DecodeAcceptsValid(s: seq<Byte>)
    ensures Bech32Decode(s).err == NoError <==> IsValidBech32(s)
  {
    if IsValidBech32(s) {
      ValidDecodes(s);
    }
    if Bech32Decode(s).err == NoError {
      DecodedIsValid(s);
    }
  }

  lemma ValidDecodes(s: seq<Byte>)
    requires IsValidBech32(s)
    ensures Bech32Decode(s).err == NoError
  {
    var lower := ToLower(s);
    var pos :| 0 <= pos < |s| && SeparatorAt(lower, pos);
    SeparatorIsLast(lower, pos);
    assert Bech32Decode(s) == DecodeLower(lower);
    assert DecodeLower(lower) == DecodeAt(lower, pos);
  }

  lemma DecodedIsValid(s: seq<Byte>)
    requires Bech32Decode(s).err == NoError
    ensures IsValidBech32(s)
  {
    var lower := ToLower(s);
    assert Bech32Decode(s) == DecodeLower(lower);
    var pos := RFind(lower, SEPARATOR);
    assert DecodeLower(lower) == DecodeAt(lower, pos);
    assert SeparatorAt(lower, pos);
  }

  /** What DecodeAt accepts is the encoding of what it returns. */
  lemma DecodeAtThenEncode(lower: seq<Byte>, pos: nat)
    requires 1 <= pos && pos + 7 <= |lower| && AllSymbols(lower[pos + 1..])
    requires lower[pos] == SEPARATOR && DecodeAt(lower, pos).err == NoError
    ensures var r := DecodeAt(lower, pos);
      Bech32Encode(r.hrp, r.data, r.spec) == lower
  {
    var r := DecodeAt(lower, pos);
    var hrp, tail := lower[..pos], lower[pos + 1..];
    var all: seq<nat> := SymbolsOf(tail);
    var n := |all| - 6;
    var data, c := all[..n], all[n..];
    assert r == Decoded(hrp, data, VerifyChecksum(hrp, all), NoError);
    assert all == data + c;
    VerifyThenCreate(hrp, data, c);
    CharsOfSymbols(tail);
    SplitAtSeparator(lower, pos);
    EncodeOfParts(hrp, data, r.spec, tail);
  }

  /** A string is its part before pos, the character at pos and its part after pos. */
  lemma SplitAtSeparator(lower: seq<Byte>, pos: nat)
    requires pos < |lower|
    ensures lower == lower[..pos] + [lower[pos]] + lower[pos + 1..]
  {
  }

  /** The encoding is the human-readable part, the separator and the characters of data and checksum. */
  lemma EncodeOfParts(hrp: seq<Byte>, data: seq<nat>, spec: Encoding, tail: seq<Byte>)
    requires Below32(data)
    requires var all: seq<nat> := data + CreateChecksum(hrp, data, spec);
      AllBelow32(all) && ToChars(all) == tail
    ensures Bech32Encode(hrp, data, spec) == hrp + [SEPARATOR] + tail
  {
  }

  /** On success, the string is (in lower case) the encoding of what was decoded. */
  lemma DecodeThenEncode(s: seq<Byte>)
    requires Bech32Decode(s).err == NoError
    ensures var r := Bech32Decode(s);
      Bech32Encode(r.hrp, r.data, r.spec) == ToLower(s)
  {
    var lower := ToLower(s);
    assert Bech32Decode(s) == DecodeLower(lower);
    var pos := RFind(lower, SEPARATOR);
    assert DecodeLower(lower) == DecodeAt(lower, pos);
    DecodeAtThenEncode(lower, pos);
  }

  /** DecodeAt at the separator of an encoding gives back its parts. */
  lemma DecodeAtEncoded(hrp: seq<Byte>, data: seq<nat>, spec: Encoding)
    requires 1 <= |hrp| && Below32(data) && spec != UNKNOWN
    ensures var s := Bech32Encode(hrp, data, spec);
      DecodeAt(s, |hrp|) == Decoded(hrp, data, spec, NoError)
  {
    var s := Bech32Encode(hrp, data, spec);
    EncodedSymbols(hrp, data, spec);
    var combined: seq<nat> := data + CreateChecksum(hrp, data, spec);
    CreateThenVerify(hrp, data, spec);
    assert combined[..|combined| - 6] == data;
  }

  /**
   * Round trip: a lower-case printable human-readable part, 5-bit data and a
   * known variant, 90 characters in all, decode back to themselves.
   */
  lemma EncodeThenDecode(hrp: seq<Byte>, data: seq<nat>, spec: Encoding)
    requires 1 <= |hrp| && AllPrintable(hrp) && forall i :: 0 <= i < |hrp| ==> !IsUpper(hrp[i])
    requires Below32(data) && spec != UNKNOWN
    requires |hrp| + |data| + 7 <= MAX_LENGTH
    ensures Bech32Decode(Bech32Encode(hrp, data, spec)) == Decoded(hrp, data, spec, NoError)
  {
    var s := Bech32Encode(hrp, data, spec);
    EncodedLowerPrintable(hrp, data, spec);
    assert Bech32Decode(s) == DecodeLower(s);
    RFindIsLast(s, SEPARATOR, |hrp|);
    assert DecodeLower(s) == DecodeAt(s, |hrp|);
    DecodeAtEncoded(hrp, data, spec);
  }

  /** An encoding that decodes with the human-readable part it was made from decodes to its inputs. */
  lemma DecodesToInputs(hrp: seq<Byte>, data: seq<nat>, spec: Encoding)
    requires Below32(data) && spec != UNKNOWN
    requires var r := Bech32Decode(Bech32Encode(hrp, data, spec)); r.err == NoError && r.hrp == hrp
    ensures Bech32Decode(Bech32Encode(hrp, data, spec)) == Decoded(hrp, data, spec, NoError)
  {
    DecodedHrpLower(Bech32Encode(hrp, data, spec));
    EncodeThenDecode(hrp, data, spec);
  }

  lemma CharCase(c: Byte)
    ensures LowerChar(UpperChar(c)) == LowerChar(c) && UpperChar(UpperChar(c)) == UpperChar(c)
    ensures LowerChar(LowerChar(c)) == LowerChar(c)
    ensures IsPrintable(UpperChar(c)) == IsPrintable(c) && IsPrintable(LowerChar(c)) == IsPrintable(c)
  {
  }

  /** Changing the case of a string keeps its printable characters and its lower-case form. */
  lemma CaseFacts(s: seq<Byte>)
    ensures ToLower(ToUpper(s)) == ToLower(s) && ToUpper(ToUpper(s)) == ToUpper(s)
    ensures ToLower(ToLower(s)) == ToLower(s)
    ensures AllPrintable(ToUpper(s)) == AllPrintable(s) && AllPrintable(ToLower(s)) == AllPrintable(s)
  {
    var u, l := ToUpper(s), ToLower(s);
    forall i | 0 <= i < |s|
      ensures ToLower(u)[i] == l[i] && ToUpper(u)[i] == u[i] && ToLower(l)[i] == l[i]
      ensures IsPrintable(u[i]) == IsPrintable(s[i]) && IsPrintable(l[i]) == IsPrintable(s[i])
    {
      CharCase(s[i]);
    }
  }

  /** The decoded human-readable part is printable and in lower case. */
  lemma DecodedHrpLower(s: seq<Byte>)
    requires Bech32Decode(s).err == NoError
    ensures var hrp := Bech32Decode(s).hrp;
      AllPrintable(hrp) && forall i :: 0 <= i < |hrp| ==> !IsUpper(hrp[i])
  {
    var hrp := Bech32Decode(s).hrp;
    CaseFacts(s);
    assert forall i :: 0 <= i < |hrp| ==> hrp[i] == ToLower(s)[i];
  }

  /** Decoding does not depend on the case of a single-case string. */
  lemma DecodeIgnoresCase(s: seq<Byte>)
    requires !IsMixedCase(s)
    ensures Bech32Decode(ToUpper(s)) == Bech32Decode(s)
    ensures Bech32Decode(ToLower(s)) == Bech32Decode(s)
  {
    CaseFacts(s);
  }
}
