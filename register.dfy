/**
 * The BCH checksum register of BIP-173 ("Checksum"): a 30-bit register that
 * starts at 1 and absorbs one value at a time. Each step takes the top five
 * bits out, shifts the low 25 bits up by five, mixes the value in, and
 * folds in generator GEN[i] for every set bit i of the five bits taken out.
 */
module Register {
  import opened Bits

  const GEN: seq<nat> := [0x3b6a57b2, 0x26508e6d, 0x1ea119fa, 0x3d4233dd, 0x2a1462b3]

  /** The loop `for i in range(start, 5): chk ^= GEN[i] if ((top >> i) & 1) else 0`. */
  function MixFrom(chk: nat, top: nat, start: nat): nat
    requires start <= 5
    decreases 5 - start
  {
    if start == 5 then chk
    else MixFrom(Xor(chk, if BitSet(top, start) then GEN[start] else 0), top, start + 1)
  }

  /** One register step: top = chk >> 25; chk = (chk & 0x1ffffff) << 5 ^ v; then the generators. */
  function Step(chk: nat, v: nat): (r: nat)
    ensures v < 32 ==> r < Pow2(30)
  {
    StepFits(chk, v);
    MixFrom(Xor(Shl(Low(chk, 25), 5), v), Shr(chk, 25), 0)
  }

  /** The register after absorbing `values` from `chk`, first value first. */
  function PolymodFrom(chk: nat, values: seq<nat>): nat
    decreases |values|
  {
    if values == [] then chk else PolymodFrom(Step(chk, values[0]), values[1..])
  }

  /** bech32_polymod(values) */
  function Polymod(values: seq<nat>): (r: nat)
    ensures Below32(values) ==> r < Pow2(30)
  {
    if Below32(values) then
      Pow2Constants();
      PolymodFromBound(1, values);
      PolymodFrom(1, values)
    else
      PolymodFrom(1, values)
  }

  /** bech32_polymod as the reference writes it: a register loop with a generator loop inside. */
  method ComputePolymod(values: seq<nat>) returns (chk: nat)
    ensures chk == Polymod(values)
  {
    chk := 1;
    for k := 0 to |values|
      invariant PolymodFrom(chk, values[k..]) == Polymod(values)
    {
      chk := ComputeStep(chk, values[k]);
      assert values[k..][1..] == values[k + 1..];
    }
  }

  /** The body of the register loop: shift the value in, then fold in the generators. */
  method ComputeStep(chk0: nat, v: nat) returns (chk: nat)
    ensures chk == Step(chk0, v)
  {
    var top := Shr(chk0, 25);
    chk := Xor(Shl(Low(chk0, 25), 5), v);
    ghost var start := chk;
    for i := 0 to 5
      invariant MixFrom(chk, top, i) == MixFrom(start, top, 0)
    {
      chk := Xor(chk, if BitSet(top, i) then GEN[i] else 0);
    }
  }

  // ---------------------------------------------------------------------------
  // Composition

  /** Absorbing a ++ b is absorbing b from the register reached after a. */
  lemma {:induction false} PolymodFromAppend(chk: nat, a: seq<nat>, b: seq<nat>)
    decreases |a|
    ensures PolymodFrom(chk, a + b) == PolymodFrom(PolymodFrom(chk, a), b)
  {
    if a == [] {
      assert a + b == b;
    } else {
      assert (a + b)[0] == a[0];
      assert (a + b)[1..] == a[1..] + b;
      PolymodFromAppend(Step(chk, a[0]), a[1..], b);
    }
  }

  lemma PolymodAppend(a: seq<nat>, b: seq<nat>)
    ensures Polymod(a + b) == PolymodFrom(Polymod(a), b)
  {
    PolymodFromAppend(1, a, b);
  }

  /** The last value absorbed is one more step. */
  lemma PolymodFromSnoc(chk: nat, a: seq<nat>, x: nat)
    ensures PolymodFrom(chk, a + [x]) == Step(PolymodFrom(chk, a), x)
  {
    PolymodFromAppend(chk, a, [x]);
  }

  // ---------------------------------------------------------------------------
  // Bounds

  predicate Below32(s: seq<nat>)
  {
    forall i :: 0 <= i < |s| ==> s[i] < 32
  }

  lemma Pow2Constants()
    ensures Pow2(5) == 32 && Pow2(25) == 0x200_0000 && Pow2(30) == 0x4000_0000
  {
    Pow2Plus5(5);
    Pow2Plus5(10);
    Pow2Plus5(15);
    Pow2Plus5(20);
    Pow2Plus5(25);
  }

  lemma GenBound(i: nat)
    requires i < 5
    ensures GEN[i] < Pow2(30)
  {
    Pow2Constants();
  }

  lemma {:induction false} MixBound(chk: nat, top: nat, start: nat)
    requires start <= 5 && chk < Pow2(30)
    decreases 5 - start
    ensures MixFrom(chk, top, start) < Pow2(30)
  {
    if start < 5 {
      var g := if BitSet(top, start) then GEN[start] else 0;
      GenBound(start);
      XorBound(chk, g, 30);
      MixBound(Xor(chk, g), top, start + 1);
    }
  }

  /** A step leaves the register below 2^30 whatever it held, for a value below 32. */
  lemma StepFits(chk: nat, v: nat)
    ensures v < 32 ==> MixFrom(Xor(Shl(Low(chk, 25), 5), v), Shr(chk, 25), 0) < Pow2(30)
  {
    if v >= 32 {
      return;
    }
    LowBound(chk, 25);
    ShlBound(Low(chk, 25), 5, 25);
    assert Pow2(5) == 32;
    Pow2Monotone(5, 30);
    XorBound(Shl(Low(chk, 25), 5), v, 30);
    MixBound(Xor(Shl(Low(chk, 25), 5), v), Shr(chk, 25), 0);
  }

  lemma {:induction false} PolymodFromBound(chk: nat, values: seq<nat>)
    requires chk < Pow2(30) && Below32(values)
    decreases |values|
    ensures PolymodFrom(chk, values) < Pow2(30)
  {
    if values != [] {
      PolymodFromBound(Step(chk, values[0]), values[1..]);
    }
  }

  // ---------------------------------------------------------------------------
  // Linearity: the register is linear over exclusive or

  function GenTerm(top: nat, i: nat): nat
    requires i < 5
  {
    if BitSet(top, i) then GEN[i] else 0
  }

  lemma GenTermXor(t1: nat, t2: nat, i: nat)
    requires i < 5
    ensures GenTerm(Xor(t1, t2), i) == Xor(GenTerm(t1, i), GenTerm(t2, i))
  {
    XorBit(t1, t2, i);
    XorZero(GEN[i]);
    XorSelf(GEN[i]);
  }

  lemma {:induction false} MixLinear(a: nat, b: nat, t1: nat, t2: nat, start: nat)
    requires start <= 5
    decreases 5 - start
    ensures MixFrom(Xor(a, b), Xor(t1, t2), start) == Xor(MixFrom(a, t1, start), MixFrom(b, t2, start))
  {
    if start < 5 {
      var g1, g2 := GenTerm(t1, start), GenTerm(t2, start);
      GenTermXor(t1, t2, start);
      XorSwap(a, b, g1, g2);
      MixLinear(Xor(a, g1), Xor(b, g2), t1, t2, start + 1);
    }
  }

  lemma StepLinear(a: nat, b: nat, v: nat, w: nat)
    ensures Step(Xor(a, b), Xor(v, w)) == Xor(Step(a, v), Step(b, w))
  {
    XorShr(a, b, 25);
    XorLow(a, b, 25);
    XorShl(Low(a, 25), Low(b, 25), 5);
    XorSwap(Shl(Low(a, 25), 5), Shl(Low(b, 25), 5), v, w);
    MixLinear(Xor(Shl(Low(a, 25), 5), v), Xor(Shl(Low(b, 25), 5), w), Shr(a, 25), Shr(b, 25), 0);
  }

  function ZeroValues(n: nat): (z: seq<nat>)
    ensures |z| == n && forall i :: 0 <= i < n ==> z[i] == 0
  {
    seq(n, _ => 0)
  }

  /**
   * Starting from a ^ b is starting from a on zeros and from b on the values,
   * and combining the two registers.
   */
  lemma {:induction false} PolymodFromLinear(a: nat, b: nat, s: seq<nat>)
    decreases |s|
    ensures PolymodFrom(Xor(a, b), s) == Xor(PolymodFrom(a, ZeroValues(|s|)), PolymodFrom(b, s))
  {
    if s != [] {
      XorZero(s[0]);
      StepLinear(a, b, 0, s[0]);
      assert ZeroValues(|s|)[1..] == ZeroValues(|s| - 1);
      PolymodFromLinear(Step(a, 0), Step(b, s[0]), s[1..]);
    }
  }

  // ---------------------------------------------------------------------------
  // Short inputs: no generator fires while the register is below 2^25

  /** The base-32 number with the digits of s, most significant first. */
  function Value(s: seq<nat>): nat
  {
    if s == [] then 0 else 32 * Value(s[..|s| - 1]) + s[|s| - 1]
  }

  lemma {:induction false} MixOfZero(chk: nat, start: nat)
    requires start <= 5
    decreases 5 - start
    ensures MixFrom(chk, 0, start) == chk
  {
    if start < 5 {
      ShrOfSmall(0, start);
      XorZero(chk);
      MixOfZero(chk, start + 1);
    }
  }

  /** Below 2^25 a step is a plain base-32 shift: chk * 32 + v. */
  lemma StepNoGenerator(chk: nat, v: nat)
    requires chk < Pow2(25) && v < 32
    ensures Step(chk, v) == 32 * chk + v
  {
    ShrOfSmall(chk, 25);
    LowOfSmall(chk, 25);
    ShlPow2(chk, 5);
    assert Pow2(5) == 32;
    XorDisjoint(chk, v, 5);
    MixOfZero(32 * chk + v, 0);
  }

  lemma Pow2Plus5(n: nat)
    ensures Pow2(n + 5) == 32 * Pow2(n)
  {
    Pow2Add(n, 5);
    assert Pow2(5) == 32;
  }

  /** The value of [acc] ++ s, with acc below 2^m, is below 2^(m + 5|s|). */
  lemma {:induction false} ValueBound(acc: nat, s: seq<nat>, m: nat)
    requires acc < Pow2(m) && Below32(s)
    ensures Value([acc] + s) < Pow2(m + 5 * |s|)
  {
    if s != [] {
      var t := [acc] + s;
      assert t[..|t| - 1] == [acc] + s[..|s| - 1];
      ValueBound(acc, s[..|s| - 1], m);
      Pow2Plus5(m + 5 * (|s| - 1));
    }
  }

  /** ... and with acc at least 1, at least 2^(5|s|). */
  lemma {:induction false} ValueLowerBound(acc: nat, s: seq<nat>)
    requires acc >= 1
    ensures Value([acc] + s) >= Pow2(5 * |s|)
  {
    if s != [] {
      var t := [acc] + s;
      assert t[..|t| - 1] == [acc] + s[..|s| - 1];
      ValueLowerBound(acc, s[..|s| - 1]);
      Pow2Plus5(5 * (|s| - 1));
    }
  }

  /**
   * While the register stays below 2^25 before every step, absorbing s from
   * acc computes the base-32 number [acc] ++ s.
   */
  lemma {:induction false} PolymodFromNoGenerator(acc: nat, s: seq<nat>)
    requires |s| <= 6 && acc < Pow2(5 * (6 - |s|)) && Below32(s)
    ensures PolymodFrom(acc, s) == Value([acc] + s)
  {
    if s != [] {
      var init, x := s[..|s| - 1], s[|s| - 1];
      assert s == init + [x];
      assert Below32(init) by { assert forall i :: 0 <= i < |init| ==> init[i] == s[i]; }
      Pow2Monotone(5 * (6 - |s|), 5 * (6 - |init|));
      PolymodFromNoGenerator(acc, init);
      NoGeneratorSnoc(acc, init, x);
      assert [acc] + s == ([acc] + init) + [x];
    }
  }

  /** The inductive step: one more value shifts the base-32 number by one digit. */
  lemma NoGeneratorSnoc(acc: nat, init: seq<nat>, x: nat)
    requires |init| <= 5 && acc < Pow2(5 * (5 - |init|)) && Below32(init) && x < 32
    requires PolymodFrom(acc, init) == Value([acc] + init)
    ensures PolymodFrom(acc, init + [x]) == Value(([acc] + init) + [x])
  {
    ValueBelow25(acc, init, 5 * (5 - |init|));
    PolymodFromSnoc(acc, init, x);
    StepNoGenerator(PolymodFrom(acc, init), x);
    ValueSnoc([acc] + init, x);
  }

  lemma ValueBelow25(acc: nat, init: seq<nat>, m: nat)
    requires acc < Pow2(m) && Below32(init) && m + 5 * |init| == 25
    ensures Value([acc] + init) < Pow2(25)
  {
    ValueBound(acc, init, m);
  }

  /** Up to five 5-bit values, bech32_polymod is the base-32 number 1 ++ values. */
  lemma PolymodShort(values: seq<nat>)
    requires |values| <= 5 && Below32(values)
    ensures Polymod(values) == Value([1] + values)
  {
    Pow2Monotone(5, 5 * (6 - |values|));
    assert Pow2(5) == 32;
    PolymodFromNoGenerator(1, values);
  }

  /** Appending a digit to a base-32 number. */
  lemma ValueSnoc(s: seq<nat>, x: nat)
    ensures Value(s + [x]) == 32 * Value(s) + x
  {
    assert (s + [x])[..|s|] == s;
  }

  /** One value a leaves the register at the base-32 number 1 a. */
  lemma PolymodOne(a: nat)
    requires a < 32
    ensures Polymod([a]) == 32 + a
  {
    PolymodShort([a]);
    ValueSnoc([], 1);
    assert [] + [1] == [1];
    ValueSnoc([1], a);
  }

  /** Two values a, b leave the register at the base-32 number 1 a b. */
  lemma PolymodTwo(a: nat, b: nat)
    requires a < 32 && b < 32
    ensures Polymod([a, b]) == 1024 + 32 * a + b
  {
    PolymodShort([a, b]);
    ValueSnoc([], 1);
    assert [] + [1] == [1];
    ValueSnoc([1], a);
    var p := [1] + [a];
    assert [1] + [a, b] == p + [b];
    ValueSnoc(p, b);
  }

  /** Three values a, b, c leave the register at the base-32 number 1 a b c. */
  lemma PolymodThree(a: nat, b: nat, c: nat)
    requires a < 32 && b < 32 && c < 32
    ensures Polymod([a, b, c]) == 32768 + 1024 * a + 32 * b + c
  {
    PolymodShort([a, b, c]);
    ValueSnoc([], 1);
    assert [] + [1] == [1];
    ValueSnoc([1], a);
    var p := [1] + [a];
    ValueSnoc(p, b);
    var q := p + [b];
    assert [1] + [a, b, c] == q + [c];
    ValueSnoc(q, c);
  }

  /** The vectors [0], [1], [0, 1] and [2, 3, 4] give 32, 33, 1025 and 34916. */
  lemma PolymodVectors()
    ensures Polymod([0]) == 32 && Polymod([1]) == 33
    ensures Polymod([0, 1]) == 1025 && Polymod([2, 3, 4]) == 34916
  {
    PolymodOne(0);
    PolymodOne(1);
    PolymodTwo(0, 1);
    PolymodThree(2, 3, 4);
  }

  /**
   * After five values the register's top five bits are exactly 1, so the sixth
   * step xors in GEN[0] and no other generator, and the base-32 reading fails.
   */
  lemma PolymodSixFires(values: seq<nat>)
    requires |values| == 6 && Below32(values)
    ensures Shr(Polymod(values[..5]), 25) == 1
    ensures Polymod(values) != Value([1] + values)
  {
    var p := values[..5];
    assert Below32(p) by {
      assert forall i :: 0 <= i < 5 ==> p[i] == values[i];
    }
    TopAfterFive(p);
    ValueLowerBound(1, values);
  }

  /** Five values leave the base-32 number 1 ++ p, whose bits above bit 24 are exactly 1. */
  lemma TopAfterFive(p: seq<nat>)
    requires |p| == 5 && Below32(p)
    ensures Shr(Polymod(p), 25) == 1
  {
    var x := Polymod(p);
    PolymodShort(p);
    ValueBound(1, p, 1);
    ValueLowerBound(1, p);
    assert Pow2(1) == 2;
    ShrBound(x, 25, 1);
    ShrZeroIff(x, 25);
  }
}
