/**
 * Arithmetic model of the bit operations the codec uses on non-negative
 * integers (the reference works on unbounded integers, so nothing wraps):
 * `x << k` is Shl, `x >> k` is Shr, `x & (2^k - 1)` is Low and `x ^ y` is Xor.
 * ToBits/FromBits view a number as a fixed-width, most-significant-first
 * bit string; the bit converter is specified on those strings.
 */
module Bits {

  function Pow2(n: nat): (r: nat)
    ensures r >= 1
  {
    if n == 0 then 1 else 2 * Pow2(n - 1)
  }

  /** x << k, that is x * 2^k */
  function Shl(x: nat, k: nat): nat
  {
    if k == 0 then x else 2 * Shl(x, k - 1)
  }

  /** x >> k, that is x / 2^k rounded down */
  function Shr(x: nat, k: nat): nat
  {
    if k == 0 then x else Shr(x / 2, k - 1)
  }

  /** x & (2^k - 1), that is x mod 2^k */
  function Low(x: nat, k: nat): nat
  {
    if k == 0 then 0 else 2 * Low(x / 2, k - 1) + x % 2
  }

  /** Bitwise exclusive or, one bit at a time from the least significant end. */
  function Xor(x: nat, y: nat): nat
    decreases x + y
  {
    if x == 0 then y
    else if y == 0 then x
    else 2 * Xor(x / 2, y / 2) + (if x % 2 == y % 2 then 0 else 1)
  }

  /** (x >> i) & 1 == 1 */
  predicate BitSet(x: nat, i: nat)
  {
    Shr(x, i) % 2 == 1
  }

  // ---------------------------------------------------------------------------
  // Shifts and masks

  lemma {:induction false} ShlPow2(x: nat, k: nat)
    ensures Shl(x, k) == x * Pow2(k)
  {
    if k > 0 {
      ShlPow2(x, k - 1);
    }
  }

  lemma {:induction false} LowBound(x: nat, k: nat)
    ensures Low(x, k) < Pow2(k)
  {
    if k > 0 {
      LowBound(x / 2, k - 1);
    }
  }

  /** Masking a value that already fits changes nothing. */
  lemma {:induction false} LowOfSmall(x: nat, k: nat)
    requires x < Pow2(k)
    ensures Low(x, k) == x
  {
    if k > 0 {
      LowOfSmall(x / 2, k - 1);
    }
  }

  /** A value that fits below bit k has nothing left above it. */
  lemma {:induction false} ShrOfSmall(x: nat, k: nat)
    requires x < Pow2(k)
    ensures Shr(x, k) == 0
  {
    if k > 0 {
      ShrOfSmall(x / 2, k - 1);
    }
  }

  lemma {:induction false} ShrBound(x: nat, k: nat, m: nat)
    requires x < Pow2(k + m)
    ensures Shr(x, k) < Pow2(m)
  {
    if k > 0 {
      ShrBound(x / 2, k - 1, m);
    }
  }

  lemma {:induction false} ShlBound(x: nat, k: nat, m: nat)
    requires x < Pow2(m)
    ensures Shl(x, k) < Pow2(m + k)
  {
    if k > 0 {
      ShlBound(x, k - 1, m);
    }
  }

  lemma {:induction false} ShrShr(x: nat, a: nat, b: nat)
    ensures Shr(Shr(x, a), b) == Shr(x, a + b)
  {
    if a > 0 {
      ShrShr(x / 2, a - 1, b);
    }
  }

  /** x == (x >> k) << k | (x & (2^k - 1)) */
  lemma {:induction false} ShrLowSplit(x: nat, k: nat)
    ensures x == Shl(Shr(x, k), k) + Low(x, k)
  {
    if k > 0 {
      ShrLowSplit(x / 2, k - 1);
      ShlSucc(Shr(x / 2, k - 1), k - 1);
    }
  }

  /** Shl(x, k + 1) == Shl(2 * x, k) */
  lemma {:induction false} ShlSucc(x: nat, k: nat)
    ensures Shl(x, k + 1) == Shl(2 * x, k)
  {
    if k > 0 {
      ShlSucc(x, k - 1);
    }
  }

  /** ((a << k) | v) >> k == a and ((a << k) | v) & (2^k - 1) == v, for v below 2^k. */
  lemma {:induction false} ShlShrCancel(a: nat, v: nat, k: nat)
    requires v < Pow2(k)
    ensures Shr(Shl(a, k) + v, k) == a && Low(Shl(a, k) + v, k) == v
  {
    if k > 0 {
      var x := Shl(a, k) + v;
      ShlSucc(a, k - 1);
      ShlHalf(a, k);
      assert x / 2 == Shl(a, k - 1) + v / 2 && x % 2 == v % 2;
      ShlShrCancel(a, v / 2, k - 1);
    }
  }

  /** Shl(a, k) is even for k > 0, and halving it gives Shl(a, k - 1). */
  lemma ShlHalf(a: nat, k: nat)
    requires k > 0
    ensures Shl(a, k) == 2 * Shl(a, k - 1)
  {
  }

  lemma {:induction false} Pow2Add(a: nat, b: nat)
    ensures Pow2(a + b) == Pow2(a) * Pow2(b)
  {
    if a > 0 {
      Pow2Add(a - 1, b);
    }
  }

  lemma {:induction false} Pow2Monotone(a: nat, b: nat)
    requires a <= b
    ensures Pow2(a) <= Pow2(b)
  {
    if a < b {
      Pow2Monotone(a, b - 1);
    }
  }

  lemma {:induction false} ShlZero(k: nat)
    ensures Shl(0, k) == 0
  {
    if k > 0 {
      ShlZero(k - 1);
    }
  }

  /** x >> k is zero exactly when x fits in k bits. */
  lemma ShrZeroIff(x: nat, k: nat)
    ensures Shr(x, k) == 0 <==> x < Pow2(k)
  {
    if x < Pow2(k) {
      ShrOfSmall(x, k);
    } else if Shr(x, k) == 0 {
      ShrLowSplit(x, k);
      ShlZero(k);
      LowBound(x, k);
    }
  }

  // ---------------------------------------------------------------------------
  // Exclusive or

  lemma XorHalves(x: nat, y: nat)
    ensures Xor(x, y) / 2 == Xor(x / 2, y / 2)
    ensures Xor(x, y) % 2 == (if x % 2 == y % 2 then 0 else 1)
  {
  }

  /** Two numbers with the same halves and the same parity are equal. */
  lemma SameHalves(a: nat, b: nat)
    requires a / 2 == b / 2 && a % 2 == b % 2
    ensures a == b
  {
  }

  lemma XorZero(x: nat)
    ensures Xor(x, 0) == x && Xor(0, x) == x
  {
  }

  lemma {:induction false} XorComm(x: nat, y: nat)
    decreases x + y
    ensures Xor(x, y) == Xor(y, x)
  {
    if x != 0 && y != 0 {
      XorComm(x / 2, y / 2);
    }
  }

  lemma {:induction false} XorSelf(x: nat)
    ensures Xor(x, x) == 0
  {
    if x != 0 {
      XorSelf(x / 2);
    }
  }

  lemma {:induction false} XorAssoc(x: nat, y: nat, z: nat)
    decreases x + y + z
    ensures Xor(Xor(x, y), z) == Xor(x, Xor(y, z))
  {
    if x != 0 && y != 0 && z != 0 {
      XorAssoc(x / 2, y / 2, z / 2);
      XorHalves(x, y);
      XorHalves(Xor(x, y), z);
      XorHalves(y, z);
      XorHalves(x, Xor(y, z));
      SameHalves(Xor(Xor(x, y), z), Xor(x, Xor(y, z)));
    }
  }

  /** (a ^ b) ^ (c ^ d) == (a ^ c) ^ (b ^ d) */
  lemma XorSwap(a: nat, b: nat, c: nat, d: nat)
    ensures Xor(Xor(a, b), Xor(c, d)) == Xor(Xor(a, c), Xor(b, d))
  {
    calc {
      Xor(Xor(a, b), Xor(c, d));
      { XorAssoc(a, b, Xor(c, d)); }
      Xor(a, Xor(b, Xor(c, d)));
      { XorAssoc(b, c, d); XorComm(b, c); XorAssoc(c, b, d); }
      Xor(a, Xor(c, Xor(b, d)));
      { XorAssoc(a, c, Xor(b, d)); }
      Xor(Xor(a, c), Xor(b, d));
    }
  }

  lemma {:induction false} XorShr(x: nat, y: nat, k: nat)
    ensures Shr(Xor(x, y), k) == Xor(Shr(x, k), Shr(y, k))
  {
    if k > 0 {
      XorHalves(x, y);
      XorShr(x / 2, y / 2, k - 1);
    }
  }

  lemma {:induction false} XorLow(x: nat, y: nat, k: nat)
    ensures Low(Xor(x, y), k) == Xor(Low(x, k), Low(y, k))
  {
    if k > 0 {
      var la, lb := Low(x / 2, k - 1), Low(y / 2, k - 1);
      var a, b := Low(x, k), Low(y, k);
      assert a == 2 * la + x % 2 && b == 2 * lb + y % 2;
      XorHalves(x, y);
      XorLow(x / 2, y / 2, k - 1);
      assert Low(Xor(x, y), k) == 2 * Xor(la, lb) + Xor(x, y) % 2;
      XorHalves(a, b);
      assert a / 2 == la && b / 2 == lb;
      SameHalves(Low(Xor(x, y), k), Xor(a, b));
    }
  }

  lemma {:induction false} XorShl(x: nat, y: nat, k: nat)
    ensures Shl(Xor(x, y), k) == Xor(Shl(x, k), Shl(y, k))
  {
    if k > 0 {
      XorShl(x, y, k - 1);
      XorDouble(Shl(x, k - 1), Shl(y, k - 1));
    }
  }

  /** (2a) ^ (2b) == 2 (a ^ b) */
  lemma XorDouble(a: nat, b: nat)
    ensures Xor(2 * a, 2 * b) == 2 * Xor(a, b)
  {
    if a != 0 && b != 0 {
      assert (2 * a) / 2 == a && (2 * b) / 2 == b;
      assert (2 * a) % 2 == 0 && (2 * b) % 2 == 0;
    }
  }

  lemma {:induction false} XorBound(x: nat, y: nat, k: nat)
    requires x < Pow2(k) && y < Pow2(k)
    ensures Xor(x, y) < Pow2(k)
  {
    if k > 0 && x != 0 && y != 0 {
      XorBound(x / 2, y / 2, k - 1);
    }
  }

  /** When v fits below bit k, (a << k) ^ v == (a << k) + v. */
  lemma {:induction false} XorDisjoint(a: nat, v: nat, k: nat)
    requires v < Pow2(k)
    ensures Xor(Shl(a, k), v) == Shl(a, k) + v
  {
    if k > 0 {
      XorDisjoint(a, v / 2, k - 1);
      XorHalves(Shl(a, k), v);
      SameHalves(Xor(Shl(a, k), v), Shl(a, k) + v);
    } else if k == 0 {
      assert Pow2(0) == 1 && Shl(a, 0) == a;
      XorZero(a);
    }
  }

  /** The parity bit of x ^ y at position i is the exclusive or of theirs. */
  lemma XorBit(x: nat, y: nat, i: nat)
    ensures BitSet(Xor(x, y), i) <==> (BitSet(x, i) != BitSet(y, i))
  {
    XorShr(x, y, i);
    XorHalves(Shr(x, i), Shr(y, i));
  }

  // ---------------------------------------------------------------------------
  // Fixed-width bit strings, most significant bit first

  /** The low w bits of x. */
  function ToBits(x: nat, w: nat): (b: seq<bool>)
    ensures |b| == w
  {
    if w == 0 then [] else ToBits(x / 2, w - 1) + [x % 2 == 1]
  }

  function FromBits(b: seq<bool>): nat
  {
    if b == [] then 0 else 2 * FromBits(b[..|b| - 1]) + (if b[|b| - 1] then 1 else 0)
  }

  function Zeros(n: nat): seq<bool>
  {
    seq(n, _ => false)
  }

  lemma {:induction false} FromBitsBound(b: seq<bool>)
    ensures FromBits(b) < Pow2(|b|)
  {
    if b != [] {
      FromBitsBound(b[..|b| - 1]);
    }
  }

  lemma {:induction false} FromToBits(x: nat, w: nat)
    ensures FromBits(ToBits(x, w)) == Low(x, w)
  {
    if w > 0 {
      var b := ToBits(x, w);
      assert b[..w - 1] == ToBits(x / 2, w - 1);
      FromToBits(x / 2, w - 1);
    }
  }

  lemma {:induction false} ToFromBits(b: seq<bool>)
    ensures ToBits(FromBits(b), |b|) == b
  {
    if b != [] {
      var init := b[..|b| - 1];
      ToFromBits(init);
      var x := FromBits(b);
      assert x / 2 == FromBits(init);
      assert b == init + [b[|b| - 1]];
    }
  }

  /** Only the low w bits of x are seen. */
  lemma {:induction false} ToBitsLow(x: nat, m: nat, w: nat)
    requires w <= m
    ensures ToBits(Low(x, m), w) == ToBits(x, w)
  {
    if w > 0 {
      var l := Low(x, m);
      assert l / 2 == Low(x / 2, m - 1) && l % 2 == x % 2;
      ToBitsLow(x / 2, m - 1, w - 1);
    }
  }

  /** The bits of (a << f) | v, f of them from v and the rest from a. */
  lemma {:induction false} ToBitsShl(a: nat, v: nat, n: nat, f: nat)
    requires v < Pow2(f)
    ensures ToBits(Shl(a, f) + v, n + f) == ToBits(a, n) + ToBits(v, f)
  {
    if f > 0 {
      var x := Shl(a, f) + v;
      assert Shl(a, f) == 2 * Shl(a, f - 1);
      assert x / 2 == Shl(a, f - 1) + v / 2 && x % 2 == v % 2;
      ToBitsShl(a, v / 2, n, f - 1);
    }
  }

  /** The top t of the low n + t bits of x are the low t bits of x >> n. */
  lemma {:induction false} ToBitsShr(x: nat, n: nat, t: nat)
    ensures ToBits(x, n + t) == ToBits(Shr(x, n), t) + ToBits(x, n)
  {
    if n > 0 {
      ToBitsShr(x / 2, n - 1, t);
    }
  }

  /** The low w bits of x are all zero exactly when x & (2^w - 1) == 0. */
  lemma ToBitsZero(x: nat, w: nat)
    ensures ToBits(x, w) == Zeros(w) <==> Low(x, w) == 0
  {
    FromToBits(x, w);
    if ToBits(x, w) == Zeros(w) {
      FromBitsZeros(w);
    } else {
      FromBitsZeros(w);
      ToFromBits(ToBits(x, w));
      if Low(x, w) == 0 {
        ToFromBits(Zeros(w));
      }
    }
  }

  lemma {:induction false} ToBitsOfZero(w: nat)
    ensures ToBits(0, w) == Zeros(w)
  {
    if w > 0 {
      ToBitsOfZero(w - 1);
    }
  }

  lemma {:induction false} FromBitsZeros(n: nat)
    ensures FromBits(Zeros(n)) == 0
  {
    if n > 0 {
      assert Zeros(n)[..n - 1] == Zeros(n - 1);
      FromBitsZeros(n - 1);
    }
  }
}
