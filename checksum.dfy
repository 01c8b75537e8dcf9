/**
 * The checksum of BIP-173 ("Checksum") and BIP-350 ("Bech32m"): the
 * human-readable part is expanded into 5-bit values, the register runs over
 * expansion ++ data ++ six zeros, the result is xor-ed with the variant's
 * constant and written out as six 5-bit symbols, most significant first.
 */
module Checksum {
  import opened Types
  import opened Bits
  import opened Register

  const BECH32M_CONST: nat := 0x2bc830a3

  /** The constant a valid checksum leaves in the register: 1 for Bech32, BECH32M_CONST for Bech32m. */
  function EncodingConst(spec: Encoding): (r: nat)
    ensures 1 <= r < Pow2(30)
    ensures r == 1 <==> spec != BECH32M
  {
    Pow2Constants();
    if spec == BECH32M then BECH32M_CONST else 1
  }

  // ---------------------------------------------------------------------------
  // bech32_hrp_expand

  /** [b >> 5 for b in hrp] + [0] + [b & 31 for b in hrp] */
  function HrpExpand(hrp: seq<Byte>): (r: seq<nat>)
    ensures |r| == 2 * |hrp| + 1
  {
    seq(|hrp|, i requires 0 <= i < |hrp| => Shr(hrp[i], 5))
      + [0]
      + seq(|hrp|, i requires 0 <= i < |hrp| => Low(hrp[i], 5))
  }

  /** A byte splits into a high part below 8 and a low part below 32 that rebuild it. */
  lemma SplitByte(b: Byte)
    ensures Shr(b, 5) < 8 && Low(b, 5) < 32
    ensures 32 * Shr(b, 5) + Low(b, 5) == b
  {
    Pow2Constants();
    Pow2Add(5, 3);
    assert Pow2(3) == 8;
    ShrBound(b, 5, 3);
    LowBound(b, 5);
    ShrLowSplit(b, 5);
    ShlPow2(Shr(b, 5), 5);
  }

  /**
   * The expansion is the high parts, a zero, then the low parts; every value
   * is a 5-bit symbol and 32 * high + low is the original byte.
   */
  lemma HrpExpandShape(hrp: seq<Byte>)
    ensures var r := HrpExpand(hrp);
      && r[|hrp|] == 0
      && Below32(r)
      && (forall i :: 0 <= i < |hrp| ==> r[i] < 8 && 32 * r[i] + r[|hrp| + 1 + i] == hrp[i])
  {
    var r := HrpExpand(hrp);
    forall j | 0 <= j < |r|
      ensures r[j] < 32
    {
      if j < |hrp| {
        SplitByte(hrp[j]);
      } else if j > |hrp| {
        SplitByte(hrp[j - |hrp| - 1]);
      }
    }
    forall i | 0 <= i < |hrp|
      ensures r[i] < 8 && 32 * r[i] + r[|hrp| + 1 + i] == hrp[i]
    {
      SplitByte(hrp[i]);
    }
  }

  /** For a printable byte (33..126) the high part is 1, 2 or 3. */
  lemma HrpExpandPrintable(hrp: seq<Byte>)
    requires forall i :: 0 <= i < |hrp| ==> IsPrintable(hrp[i])
    ensures forall i :: 0 <= i < |hrp| ==> 1 <= HrpExpand(hrp)[i] <= 3
  {
    forall i | 0 <= i < |hrp|
      ensures 1 <= HrpExpand(hrp)[i] <= 3
    {
      SplitByte(hrp[i]);
    }
  }

  /** Two human-readable parts with the same expansion are the same. */
  lemma HrpExpandInjective(a: seq<Byte>, b: seq<Byte>)
    requires HrpExpand(a) == HrpExpand(b)
    ensures a == b
  {
    HrpExpandShape(a);
    HrpExpandShape(b);
    assert |a| == |b|;
    forall i | 0 <= i < |a|
      ensures a[i] == b[i]
    {
      assert HrpExpand(a)[i] == HrpExpand(b)[i];
      assert HrpExpand(a)[|a| + 1 + i] == HrpExpand(b)[|b| + 1 + i];
    }
  }

  /** "a" expands to [3, 0, 1] and "tb" to [3, 3, 0, 20, 2]. */
  lemma HrpExpandVectors()
    ensures HrpExpand([97]) == [3, 0, 1]
    ensures HrpExpand([116, 98]) == [3, 3, 0, 20, 2]
  {
    HrpExpandShape([97]);
    HrpExpandShape([116, 98]);
  }

  // ---------------------------------------------------------------------------
  // The six checksum symbols

  /** [(x >> 5 * (5 - i)) & 31 for i in range(6)]: x as six 5-bit digits, most significant first. */
  function Digits(x: nat): (r: seq<nat>)
    ensures |r| == 6 && Below32(r)
  {
    seq(6, i requires 0 <= i < 6 => Digit(x, 5 * (5 - i)))
  }

  /** (x >> shift) & 31 */
  function Digit(x: nat, shift: nat): (d: nat)
    ensures d < 32
  {
    LowBound(Shr(x, shift), 5);
    Pow2Constants();
    Low(Shr(x, shift), 5)
  }

  /** The first j digits of x read in base 32 are x >> 5 * (6 - j). */
  lemma {:induction false} DigitsPrefix(x: nat, j: nat)
    requires j <= 6 && x < Pow2(30)
    ensures Value(Digits(x)[..j]) == Shr(x, 5 * (6 - j))
  {
    if j == 0 {
      ShrOfSmall(x, 30);
    } else {
      var d := Digits(x);
      assert d[..j][..j - 1] == d[..j - 1];
      DigitsPrefix(x, j - 1);
      var y := Shr(x, 5 * (6 - j));
      ShrShr(x, 5 * (6 - j), 5);
      ShrLowSplit(y, 5);
      ShlPow2(Shr(y, 5), 5);
      Pow2Constants();
    }
  }

  /** Reading the six digits of a 30-bit x in base 32 gives x back. */
  lemma DigitsValue(x: nat)
    requires x < Pow2(30)
    ensures Value(Digits(x)) == x
  {
    DigitsPrefix(x, 6);
    assert Digits(x)[..6] == Digits(x);
  }

  /** Distinct digit strings of the same length have distinct values. */
  lemma {:induction false} ValueInjective(a: seq<nat>, b: seq<nat>)
    requires |a| == |b| && Below32(a) && Below32(b) && Value(a) == Value(b)
    ensures a == b
  {
    if a != [] {
      var n := |a| - 1;
      assert Value(a) % 32 == a[n] && Value(b) % 32 == b[n];
      ValueInjective(a[..n], b[..n]);
      assert a == a[..n] + [a[n]] && b == b[..n] + [b[n]];
    }
  }

  /** A leading zero digit does not change the value. */
  lemma {:induction false} ValueLeadingZero(s: seq<nat>)
    ensures Value([0] + s) == Value(s)
  {
    if s != [] {
      var t := [0] + s;
      assert t[..|t| - 1] == [0] + s[..|s| - 1];
      ValueLeadingZero(s[..|s| - 1]);
    }
  }

  // ---------------------------------------------------------------------------
  // bech32_create_checksum and its verification

  /** The register after the expansion, the data and six zero symbols. */
  function Residue(hrp: seq<Byte>, data: seq<nat>): nat
  {
    Polymod(HrpExpand(hrp) + data + [0, 0, 0, 0, 0, 0])
  }

  /** bech32_create_checksum: the six symbols of polymod(expansion ++ data ++ zeros) ^ const. */
  function CreateChecksum(hrp: seq<Byte>, data: seq<nat>, spec: Encoding): (r: seq<nat>)
    ensures |r| == 6 && Below32(r)
  {
    Digits(Xor(Residue(hrp, data), EncodingConst(spec)))
  }

  /** bech32_verify_checksum: which constant the register holds after the expansion and the values. */
  function VerifyChecksum(hrp: seq<Byte>, values: seq<nat>): (r: Encoding)
    ensures r != UNKNOWN ==> Polymod(HrpExpand(hrp) + values) == EncodingConst(r)
    ensures r == UNKNOWN ==>
      Polymod(HrpExpand(hrp) + values) != EncodingConst(BECH32)
      && Polymod(HrpExpand(hrp) + values) != EncodingConst(BECH32M)
  {
    var c := Polymod(HrpExpand(hrp) + values);
    if c == 1 then BECH32 else if c == BECH32M_CONST then BECH32M else UNKNOWN
  }

  /** From any register, a non-empty run of 5-bit values ends below 2^30. */
  lemma PolymodFromBoundAfter(chk: nat, values: seq<nat>)
    requires values != [] && Below32(values)
    ensures PolymodFrom(chk, values) < Pow2(30)
  {
    PolymodFromBound(Step(chk, values[0]), values[1..]);
  }

  /**
   * Appending six symbols c to the values moves the register to the zero-padded
   * residue xor-ed with the base-32 value of c.
   */
  lemma AppendSix(hrp: seq<Byte>, data: seq<nat>, c: seq<nat>)
    requires |c| == 6 && Below32(c)
    ensures Polymod(HrpExpand(hrp) + data + c) == Xor(Residue(hrp, data), Value(c))
  {
    var e := HrpExpand(hrp) + data;
    var reg, zeros := Polymod(e), [0, 0, 0, 0, 0, 0];
    PolymodAppend(e, c);
    PolymodAppend(e, zeros);
    assert ZeroValues(6) == zeros;
    var res := PolymodFrom(reg, zeros);
    assert res == Residue(hrp, data);
    XorZero(reg);
    PolymodFromLinear(reg, 0, c);
    assert PolymodFrom(reg, c) == Xor(res, PolymodFrom(0, c));
    Pow2Constants();
    PolymodFromNoGenerator(0, c);
    ValueLeadingZero(c);
    assert PolymodFrom(0, c) == Value(c);
  }

  /** The register value the checksum encodes fits in 30 bits. */
  lemma ChecksumValue(hrp: seq<Byte>, data: seq<nat>, spec: Encoding)
    ensures Value(CreateChecksum(hrp, data, spec)) == Xor(Residue(hrp, data), EncodingConst(spec))
  {
    var e := HrpExpand(hrp) + data;
    PolymodAppend(e, [0, 0, 0, 0, 0, 0]);
    PolymodFromBoundAfter(Polymod(e), [0, 0, 0, 0, 0, 0]);
    XorBound(Residue(hrp, data), EncodingConst(spec), 30);
    DigitsValue(Xor(Residue(hrp, data), EncodingConst(spec)));
  }

  /**
   * The defining property of the checksum: running the register over the
   * expansion, the data and the checksum leaves the variant's constant.
   */
  lemma ChecksumVerifies(hrp: seq<Byte>, data: seq<nat>, spec: Encoding)
    ensures Polymod(HrpExpand(hrp) + data + CreateChecksum(hrp, data, spec)) == EncodingConst(spec)
  {
    var c := CreateChecksum(hrp, data, spec);
    var p := Residue(hrp, data);
    AppendSix(hrp, data, c);
    ChecksumValue(hrp, data, spec);
    XorAssoc(p, p, EncodingConst(spec));
    XorSelf(p);
    XorZero(EncodingConst(spec));
  }

  /** The checksum is the only six symbols that leave the variant's constant. */
  lemma ChecksumUnique(hrp: seq<Byte>, data: seq<nat>, spec: Encoding, c: seq<nat>)
    requires |c| == 6 && Below32(c)
    requires Polymod(HrpExpand(hrp) + data + c) == EncodingConst(spec)
    ensures c == CreateChecksum(hrp, data, spec)
  {
    var p := Residue(hrp, data);
    AppendSix(hrp, data, c);
    ChecksumValue(hrp, data, spec);
    XorAssoc(p, p, Value(c));
    XorSelf(p);
    XorZero(Value(c));
    ValueInjective(c, CreateChecksum(hrp, data, spec));
  }

  /** Appending the checksum makes VerifyChecksum report the variant it was made for. */
  lemma CreateThenVerify(hrp: seq<Byte>, data: seq<nat>, spec: Encoding)
    requires spec != UNKNOWN
    ensures VerifyChecksum(hrp, data + CreateChecksum(hrp, data, spec)) == spec
  {
    var c := CreateChecksum(hrp, data, spec);
    assert HrpExpand(hrp) + (data + c) == HrpExpand(hrp) + data + c;
    ChecksumVerifies(hrp, data, spec);
  }

  /** Whatever six symbols VerifyChecksum accepts after the data are that variant's checksum. */
  lemma VerifyThenCreate(hrp: seq<Byte>, data: seq<nat>, c: seq<nat>)
    requires |c| == 6 && Below32(c)
    requires VerifyChecksum(hrp, data + c) != UNKNOWN
    ensures c == CreateChecksum(hrp, data, VerifyChecksum(hrp, data + c))
  {
    assert HrpExpand(hrp) + (data + c) == HrpExpand(hrp) + data + c;
    ChecksumUnique(hrp, data, VerifyChecksum(hrp, data + c), c);
  }

  /** For the same input the Bech32 and Bech32m checksums differ. */
  lemma VariantsDiffer(hrp: seq<Byte>, data: seq<nat>)
    ensures CreateChecksum(hrp, data, BECH32) != CreateChecksum(hrp, data, BECH32M)
  {
    ChecksumVerifies(hrp, data, BECH32);
    ChecksumVerifies(hrp, data, BECH32M);
  }
}
