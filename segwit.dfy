/**
 * Segregated witness addresses (section "Segwit address format" of BIP-173,
 * section "Addresses for segregated witness outputs" of BIP-350): a Bech32
 * string whose first data symbol is the witness version and whose other
 * symbols are the witness program in 5-bit groups.
 */
module Segwit {
  import opened Types
  import opened Register
  import opened Charset
  import opened Conversion
  import opened Bech32

  /** What decode returns: the witness version, the witness program and an error. */
  datatype Address = Address(witver: nat, witprog: seq<nat>, err: DecodeError)

  /** The failure result: version 0 and an empty program. */
  function AddressFailure(err: DecodeError): Address
  {
    Address(0, [], err)
  }

  /** Version 0 is checksummed with the Bech32 constant, every later version with Bech32m. */
  function VariantFor(witver: nat): (r: Encoding)
    ensures r != UNKNOWN
    ensures r == BECH32 <==> witver == 0
  {
    if witver == 0 then BECH32 else BECH32M
  }

  /** The version and program lengths an address may carry. */
  predicate ValidProgram(witver: nat, witprog: seq<nat>)
    ensures ValidProgram(witver, witprog) ==> witver < 32 && 5 <= 1 + (8 * |witprog| + 4) / 5 <= 65
  {
    && witver <= 16
    && 2 <= |witprog| <= 40
    && (witver == 0 ==> |witprog| == 20 || |witprog| == 32)
  }

  /** The data part of an address: the version, then the program regrouped into padded 5-bit symbols. */
  function AddressData(witver: nat, witprog: seq<nat>): (d: seq<nat>)
    requires witver < 32 && AllBytes(witprog)
    ensures Below32(d) && |d| == 1 + (8 * |witprog| + 4) / 5 && d[0] == witver
  {
    EightToFive(witprog);
    [witver] + Regroup(witprog, 8, 5, true).value
  }

  // ---------------------------------------------------------------------------
  // decode

  /**
   * segwit_addr.decode: a Bech32 decode, then the checks on the human-readable
   * part, the strict 5-to-8 conversion of the program, the lengths, the version
   * and the checksum variant.
   */
  function SegwitDecode(hrp: seq<Byte>, addr: seq<Byte>): (r: Address)
    ensures r.err != NoError ==> r == AddressFailure(r.err)
    ensures r.err == NoError ==> ValidProgram(r.witver, r.witprog) && AllBytes(r.witprog)
  {
    var d := Bech32Decode(addr);
    if d.err != NoError then AddressFailure(d.err)
    else if d.hrp != hrp then AddressFailure(HrpMismatch)
    else if d.data == [] then AddressFailure(EmptyData)
    else
      var decoded := Regroup(d.data[1..], 5, 8, false);
      if decoded.None? then AddressFailure(InvalidPadding)
      else if |decoded.value| < 2 || |decoded.value| > 40 then AddressFailure(InvalidProgramLength)
      else if d.data[0] > 16 then AddressFailure(InvalidWitnessVersion)
      else if d.data[0] == 0 && |decoded.value| != 20 && |decoded.value| != 32 then
        AddressFailure(InvalidV0ProgramLength)
      else if d.spec != VariantFor(d.data[0]) then AddressFailure(WrongEncodingVariant)
      else
        FiveToEight(d.data[1..]);
        Address(d.data[0], decoded.value, NoError)
  }

  /**
   * A decoded address is a Bech32 string for exactly this human-readable part,
   * the variant its version calls for, and the data part built from the result.
   */
  lemma DecodedParts(hrp: seq<Byte>, addr: seq<Byte>)
    requires SegwitDecode(hrp, addr).err == NoError
    ensures var r := SegwitDecode(hrp, addr);
      Bech32Decode(addr) == Decoded(hrp, AddressData(r.witver, r.witprog), VariantFor(r.witver), NoError)
  {
    var d := Bech32Decode(addr);
    var r := SegwitDecode(hrp, addr);
    assert d.err == NoError && d.hrp == hrp && d.data != [];
    assert r.witver == d.data[0] && Regroup(d.data[1..], 5, 8, false) == Some(r.witprog);
    assert d.spec == VariantFor(r.witver);
    DataOfProgram(d.data, r.witprog);
  }

  /** A data part whose tail regroups strictly to a program is the address data of its head and that program. */
  lemma DataOfProgram(data: seq<nat>, witprog: seq<nat>)
    requires data != [] && Below32(data) && AllBytes(witprog)
    requires Regroup(data[1..], 5, 8, false) == Some(witprog)
    ensures AddressData(data[0], witprog) == data
  {
    var tail := data[1..];
    assert Below32(tail) by { assert forall i :: 0 <= i < |tail| ==> tail[i] == data[i + 1]; }
    SymbolsRoundTrip(tail);
    assert data == [data[0]] + tail;
  }

  /** An address that decodes under one human-readable part fails under any other. */
  lemma OtherHrpFails(hrp: seq<Byte>, other: seq<Byte>, addr: seq<Byte>)
    requires SegwitDecode(hrp, addr).err == NoError && other != hrp
    ensures SegwitDecode(other, addr) == AddressFailure(HrpMismatch)
  {
  }

  // ---------------------------------------------------------------------------
  // encode

  /**
   * segwit_addr.encode: the Bech32 string of the version and the padded
   * program, or nothing when that string does not decode back.
   */
  function SegwitEncode(hrp: seq<Byte>, witver: nat, witprog: seq<nat>): (r: Option<seq<Byte>>)
    requires witver < 32 && AllBytes(witprog)
    ensures r.Some? ==> SegwitDecode(hrp, r.value) == Address(witver, witprog, NoError)
  {
    var ret := Bech32Encode(hrp, AddressData(witver, witprog), VariantFor(witver));
    if SegwitDecode(hrp, ret).err != NoError then None
    else
      EncodedDecodes(hrp, witver, witprog);
      Some(ret)
  }

  /** The data part determines the version and the program. */
  lemma AddressDataInjective(v1: nat, p1: seq<nat>, v2: nat, p2: seq<nat>)
    requires v1 < 32 && AllBytes(p1) && v2 < 32 && AllBytes(p2)
    requires AddressData(v1, p1) == AddressData(v2, p2)
    ensures v1 == v2 && p1 == p2
  {
    var d := AddressData(v1, p1);
    assert d[1..] == Regroup(p1, 8, 5, true).value == Regroup(p2, 8, 5, true).value;
    BytesRoundTrip(p1);
    BytesRoundTrip(p2);
  }

  /** When the encoding of an address decodes at all, it decodes to what was encoded. */
  lemma EncodedDecodes(hrp: seq<Byte>, witver: nat, witprog: seq<nat>)
    requires witver < 32 && AllBytes(witprog)
    requires SegwitDecode(hrp, Bech32Encode(hrp, AddressData(witver, witprog), VariantFor(witver))).err == NoError
    ensures SegwitDecode(hrp, Bech32Encode(hrp, AddressData(witver, witprog), VariantFor(witver)))
      == Address(witver, witprog, NoError)
  {
    var data := AddressData(witver, witprog);
    var ret := Bech32Encode(hrp, data, VariantFor(witver));
    var r := SegwitDecode(hrp, ret);
    DecodedParts(hrp, ret);
    DecodesToInputs(hrp, data, VariantFor(witver));
    AddressDataInjective(r.witver, r.witprog, witver, witprog);
  }

  /** A Bech32 string carrying a valid program's data part under its variant decodes to that program. */
  lemma DecodeOfParts(hrp: seq<Byte>, addr: seq<Byte>, witver: nat, witprog: seq<nat>)
    requires witver < 32 && AllBytes(witprog) && ValidProgram(witver, witprog)
    requires Bech32Decode(addr) == Decoded(hrp, AddressData(witver, witprog), VariantFor(witver), NoError)
    ensures SegwitDecode(hrp, addr) == Address(witver, witprog, NoError)
  {
    BytesRoundTrip(witprog);
    assert AddressData(witver, witprog)[1..] == Regroup(witprog, 8, 5, true).value;
  }

  /**
   * The encoder produces an address exactly when the human-readable part is
   * non-empty, printable and lower case, the program is valid for the version
   * and the address fits in 90 characters.
   */
  lemma EncodeSucceeds(hrp: seq<Byte>, witver: nat, witprog: seq<nat>)
    requires witver < 32 && AllBytes(witprog)
    ensures SegwitEncode(hrp, witver, witprog).Some? <==>
      (&& 1 <= |hrp| && AllPrintable(hrp) && (forall i :: 0 <= i < |hrp| ==> !IsUpper(hrp[i]))
       && ValidProgram(witver, witprog)
       && |hrp| + 1 + (8 * |witprog| + 4) / 5 + 7 <= MAX_LENGTH)
  {
    var data := AddressData(witver, witprog);
    var ret := Bech32Encode(hrp, data, VariantFor(witver));
    if SegwitEncode(hrp, witver, witprog).Some? {
      assert Bech32Decode(ret).err == NoError && Bech32Decode(ret).hrp == hrp;
      DecodedHrpLower(ret);
    }
    if && 1 <= |hrp| && AllPrintable(hrp) && (forall i :: 0 <= i < |hrp| ==> !IsUpper(hrp[i]))
       && ValidProgram(witver, witprog)
       && |hrp| + 1 + (8 * |witprog| + 4) / 5 + 7 <= MAX_LENGTH
    {
      EncodeThenDecode(hrp, data, VariantFor(witver));
      DecodeOfParts(hrp, ret, witver, witprog);
    }
  }

  /**
   * An address is the human-readable part, '1', the symbol of the version and
   * the program's symbols, then six checksum symbols.
   */
  lemma EncodedAddressShape(hrp: seq<Byte>, witver: nat, witprog: seq<nat>)
    requires witver < 32 && AllBytes(witprog) && SegwitEncode(hrp, witver, witprog).Some?
    ensures var a := SegwitEncode(hrp, witver, witprog).value;
      && |a| == |hrp| + 1 + 1 + (8 * |witprog| + 4) / 5 + 6
      && a[..|hrp|] == hrp && a[|hrp|] == SEPARATOR
      && a[|hrp| + 1] == CHARSET[witver]
  {
    var data := AddressData(witver, witprog);
    EncodedData(hrp, data, VariantFor(witver));
    var a := Bech32Encode(hrp, data, VariantFor(witver));
    assert a[|hrp| + 1] == a[|hrp| + 1..|hrp| + 1 + |data|][0];
  }

  /** The programs of the encoding vectors (20 or 32 bytes after version 0, 32 after version 1) encode. */
  lemma VectorProgramsEncode(hrp: seq<Byte>, witprog: seq<nat>)
    requires |hrp| == 2 && AllPrintable(hrp) && forall i :: 0 <= i < |hrp| ==> !IsUpper(hrp[i])
    requires AllBytes(witprog) && (|witprog| == 20 || |witprog| == 32)
    ensures SegwitEncode(hrp, 0, witprog).Some?
    ensures |witprog| == 32 ==> SegwitEncode(hrp, 1, witprog).Some?
  {
    var n := |witprog|;
    assert (8 * n + 4) / 5 <= 52 by {
      if n == 20 { assert (8 * n + 4) / 5 == 32; } else { assert (8 * n + 4) / 5 == 52; }
    }
    assert ValidProgram(0, witprog);
    EncodeSucceeds(hrp, 0, witprog);
    if n == 32 {
      assert ValidProgram(1, witprog);
      EncodeSucceeds(hrp, 1, witprog);
    }
  }

  /** Re-encoding a decoded address gives the address in lower case. */
  lemma DecodeThenEncodeAddress(hrp: seq<Byte>, addr: seq<Byte>)
    requires SegwitDecode(hrp, addr).err == NoError
    ensures var r := SegwitDecode(hrp, addr);
      r.witver < 32 && SegwitEncode(hrp, r.witver, r.witprog) == Some(ToLower(addr))
  {
    var r := SegwitDecode(hrp, addr);
    DecodedParts(hrp, addr);
    DecodeThenEncode(addr);
    DecodeAcceptsValid(addr);
    DecodeIgnoresCase(addr);
    SameStringDecode(hrp, ToLower(addr), addr);
  }

  /** The address decoder sees only what the Bech32 decoder returns. */
  lemma SameStringDecode(hrp: seq<Byte>, a: seq<Byte>, b: seq<Byte>)
    requires Bech32Decode(a) == Bech32Decode(b)
    ensures SegwitDecode(hrp, a) == SegwitDecode(hrp, b)
  {
  }

  /**
   * The addresses for a human-readable part, stated without the decoder's
   * checks: single-case printable strings of at most 90 characters whose lower
   * case is the Bech32 encoding of a valid version and program.
   */
  ghost predicate IsValidAddress(hrp: seq<Byte>, addr: seq<Byte>)
  {
    && 1 <= |hrp| && |addr| <= MAX_LENGTH && AllPrintable(addr) && !IsMixedCase(addr)
    && exists witver: nat, witprog: seq<nat> ::
      && witver < 32 && AllBytes(witprog) && ValidProgram(witver, witprog)
      && ToLower(addr) == Bech32Encode(hrp, AddressData(witver, witprog), VariantFor(witver))
  }

  /** The decoder accepts exactly the valid addresses for the human-readable part. */
  lemma DecodeAcceptsValidAddress(hrp: seq<Byte>, addr: seq<Byte>)
    ensures SegwitDecode(hrp, addr).err == NoError <==> IsValidAddress(hrp, addr)
  {
    if SegwitDecode(hrp, addr).err == NoError {
      var r := SegwitDecode(hrp, addr);
      DecodeThenEncodeAddress(hrp, addr);
      DecodeAcceptsValid(addr);
      assert ValidProgram(r.witver, r.witprog);
    }
    if IsValidAddress(hrp, addr) {
      var witver: nat, witprog: seq<nat> :|
        && witver < 32 && AllBytes(witprog) && ValidProgram(witver, witprog)
        && ToLower(addr) == Bech32Encode(hrp, AddressData(witver, witprog), VariantFor(witver));
      AcceptedAddress(hrp, addr, witver, witprog);
    }
  }

  lemma AcceptedAddress(hrp: seq<Byte>, addr: seq<Byte>, witver: nat, witprog: seq<nat>)
    requires 1 <= |hrp| && |addr| <= MAX_LENGTH && AllPrintable(addr) && !IsMixedCase(addr)
    requires witver < 32 && AllBytes(witprog) && ValidProgram(witver, witprog)
    requires ToLower(addr) == Bech32Encode(hrp, AddressData(witver, witprog), VariantFor(witver))
    ensures SegwitDecode(hrp, addr) == Address(witver, witprog, NoError)
  {
    var data, spec := AddressData(witver, witprog), VariantFor(witver);
    var s := ToLower(addr);
    assert hrp == s[..|hrp|];
    LowerPrefix(addr, |hrp|);
    EncodeThenDecode(hrp, data, spec);
    DecodeIgnoresCase(addr);
    DecodeOfParts(hrp, addr, witver, witprog);
  }

  /** A prefix of a printable string, in lower case, is printable and has no upper-case letter. */
  lemma LowerPrefix(addr: seq<Byte>, n: nat)
    requires AllPrintable(addr) && n <= |addr|
    ensures var p := ToLower(addr)[..n];
      AllPrintable(p) && forall i :: 0 <= i < |p| ==> !IsUpper(p[i])
  {
    CaseFacts(addr);
    var s := ToLower(addr);
    assert forall i :: 0 <= i < n ==> s[..n][i] == s[i];
  }
}
