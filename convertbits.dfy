/**
 * General power-of-two base conversion (convertbits of BIP-173's reference
 * code): the input values, each `from` bits wide, are read as one
 * most-significant-first bit string, which is cut into `to`-bit groups.
 * In padded mode a short last group is filled with zero bits on the right;
 * in strict mode the leftover bits must be fewer than `from` and all zero.
 */
module Conversion {
  import opened Types
  import opened Bits
  import opened Register

  /** Every value fits in w bits. */
  predicate AllFit(s: seq<nat>, w: nat)
  {
    forall i :: 0 <= i < |s| ==> s[i] < Pow2(w)
  }

  /** The w-bit strings of the values, concatenated, first value first. */
  function Flatten(s: seq<nat>, w: nat): seq<bool>
  {
    if s == [] then [] else ToBits(s[0], w) + Flatten(s[1..], w)
  }

  /** The complete t-bit groups of b, read from the front. */
  function Groups(b: seq<bool>, t: nat): seq<nat>
    requires t >= 1
    decreases |b|
  {
    if |b| < t then [] else [FromBits(b[..t])] + Groups(b[t..], t)
  }

  /** The bits after the last complete t-bit group. */
  function Rest(b: seq<bool>, t: nat): (r: seq<bool>)
    requires t >= 1
    ensures |r| < t
    decreases |b|
  {
    if |b| < t then b else Rest(b[t..], t)
  }

  /** The groups of b, then the leftover bits (if any) zero-filled on the right to a last group. */
  function PadGroups(b: seq<bool>, to: nat): seq<nat>
    requires to >= 1
  {
    var rest := Rest(b, to);
    Groups(b, to) + if rest == [] then [] else [FromBits(rest + Zeros(to - |rest|))]
  }

  /** The groups of b, provided the leftover bits are fewer than `from` and all zero. */
  function StrictGroups(b: seq<bool>, from: nat, to: nat): Option<seq<nat>>
    requires to >= 1
  {
    var rest := Rest(b, to);
    if |rest| >= from || rest != Zeros(|rest|) then None else Some(Groups(b, to))
  }

  /**
   * What convertbits(data, from, to, pad) returns: None when a value does not
   * fit in `from` bits or, in strict mode, when the leftover bits are too many
   * or not all zero; otherwise the groups, plus the zero-filled leftover when
   * padding.
   */
  function Regroup(data: seq<nat>, from: nat, to: nat, pad: bool): (r: Option<seq<nat>>)
    requires to >= 1
    ensures r.Some? ==> AllFit(data, from) && AllFit(r.value, to)
    ensures pad ==> (r.Some? <==> AllFit(data, from))
  {
    if !AllFit(data, from) then None
    else if pad then
      PadGroupsShape(Flatten(data, from), to);
      Some(PadGroups(Flatten(data, from), to))
    else
      GroupsFit(Flatten(data, from), to);
      StrictGroups(Flatten(data, from), from, to)
  }

  // ---------------------------------------------------------------------------
  // The reference loop

  /**
   * convertbits as the reference writes it: an accumulator `acc` holding the
   * last `bits` unread bits, masked to from + to - 1 bits after every value
   * (max_acc), and `to`-bit groups taken off its top while enough bits remain.
   */
  method ConvertBits(data: seq<nat>, from: nat, to: nat, pad: bool) returns (r: Option<seq<nat>>)
    requires to >= 1
    ensures r == Regroup(data, from, to, pad)
  {
    var acc: nat := 0;
    var bits: nat := 0;
    var ret: seq<nat> := [];
    for k := 0 to |data|
      invariant bits < to && AllFit(ret, to) && AllFit(data[..k], from)
      invariant Flatten(ret, to) + ToBits(acc, bits) == Flatten(data[..k], from)
    {
      var value := data[k];
      ShrZeroIff(value, from);
      if Shr(value, from) != 0 {
        return None;
      }
      ret, acc, bits := Feed(ret, acc, bits, value, from, to, data[..k]);
      assert data[..k + 1] == data[..k] + [value];
    }
    assert data[..|data|] == data;
    r := Flush(ret, acc, bits, from, to, pad, Flatten(data, from));
  }

  /** One value of the input loop: absorb it into the accumulator, then emit the complete groups. */
  method Feed(ret0: seq<nat>, acc0: nat, bits0: nat, value: nat, from: nat, to: nat, ghost prefix: seq<nat>)
    returns (ret: seq<nat>, acc: nat, bits: nat)
    requires to >= 1 && bits0 < to && AllFit(ret0, to) && value < Pow2(from)
    requires Flatten(ret0, to) + ToBits(acc0, bits0) == Flatten(prefix, from)
    ensures bits < to && AllFit(ret, to)
    ensures Flatten(ret, to) + ToBits(acc, bits) == Flatten(prefix + [value], from)
  {
    var maxAccBits := from + to - 1;  // max_acc == (1 << maxAccBits) - 1
    Absorb(acc0, bits0, to, value, from, prefix);
    // (acc << from) | value, the two bit ranges being disjoint
    acc := Low(Shl(acc0, from) + value, maxAccBits);
    ghost var front, pending, tail := Flatten(ret0, to), ToBits(acc0, bits0), ToBits(value, from);
    assert front + (pending + tail) == (front + pending) + tail;
    ret, bits := TakeGroups(ret0, acc, bits0 + from, to);
  }

  /** After the loop: pad the last group, or refuse leftover bits that are too many or not zero. */
  method Flush(ret: seq<nat>, acc: nat, bits: nat, from: nat, to: nat, pad: bool, ghost b: seq<bool>)
    returns (r: Option<seq<nat>>)
    requires to >= 1 && bits < to && AllFit(ret, to)
    requires Flatten(ret, to) + ToBits(acc, bits) == b
    ensures r == if pad then Some(PadGroups(b, to)) else StrictGroups(b, from, to)
  {
    Finish(b, from, to, ret, acc, bits);
    if pad {
      if bits > 0 {
        r := Some(ret + [Low(Shl(acc, to - bits), to)]);
      } else {
        r := Some(ret);
      }
    } else if bits >= from || Low(Shl(acc, to - bits), to) != 0 {
      r := None;
    } else {
      r := Some(ret);
    }
  }

  /** After the last value: the complete groups are out and the pending bits are the rest. */
  lemma Finish(b: seq<bool>, from: nat, to: nat, ret: seq<nat>, acc: nat, bits: nat)
    requires to >= 1 && bits < to && AllFit(ret, to)
    requires Flatten(ret, to) + ToBits(acc, bits) == b
    ensures PadGroups(b, to) == if bits > 0 then ret + [Low(Shl(acc, to - bits), to)] else ret
    ensures StrictGroups(b, from, to)
      == if bits >= from || Low(Shl(acc, to - bits), to) != 0 then None else Some(ret)
  {
    var rest := ToBits(acc, bits);
    GroupsOfFlatten(ret, rest, to);
    assert Groups(b, to) == ret && Rest(b, to) == rest;
    PaddedLast(acc, bits, to);
    if bits == 0 {
      assert rest == [] && ret + [] == ret;
    }
  }

  /** acc = ((acc << from) | value) & max_acc appends the value's bits to the pending ones. */
  lemma Absorb(acc: nat, bits: nat, to: nat, value: nat, from: nat, prefix: seq<nat>)
    requires value < Pow2(from) && bits < to
    ensures ToBits(Low(Shl(acc, from) + value, from + to - 1), bits + from) == ToBits(acc, bits) + ToBits(value, from)
    ensures Flatten(prefix + [value], from) == Flatten(prefix, from) + ToBits(value, from)
  {
    ToBitsLow(Shl(acc, from) + value, from + to - 1, bits + from);
    ToBitsShl(acc, value, bits, from);
    FlattenAppend(prefix, [value], from);
  }

  /** `while bits >= to`: move every complete group of pending bits to the output. */
  method TakeGroups(ret0: seq<nat>, acc: nat, bits0: nat, to: nat) returns (ret: seq<nat>, bits: nat)
    requires to >= 1 && AllFit(ret0, to)
    ensures bits < to && AllFit(ret, to)
    ensures Flatten(ret, to) + ToBits(acc, bits) == Flatten(ret0, to) + ToBits(acc, bits0)
  {
    ret, bits := ret0, bits0;
    while bits >= to
      invariant AllFit(ret, to)
      invariant Flatten(ret, to) + ToBits(acc, bits) == Flatten(ret0, to) + ToBits(acc, bits0)
      decreases bits
    {
      bits := bits - to;
      ret := Emit(ret, acc, bits, to);
    }
  }

  /** bits -= to; ret.append((acc >> bits) & maxv): the top `to` pending bits become a group. */
  method Emit(ret: seq<nat>, acc: nat, bits: nat, to: nat) returns (ret': seq<nat>)
    requires AllFit(ret, to)
    ensures AllFit(ret', to)
    ensures Flatten(ret', to) + ToBits(acc, bits) == Flatten(ret, to) + ToBits(acc, bits + to)
  {
    var top := Shr(acc, bits);
    var group := Low(top, to);
    LowBound(top, to);
    ToBitsShr(acc, bits, to);
    ToBitsLow(top, to, to);
    ret' := ret + [group];
    FlattenAppend(ret, [group], to);
    FlattenSingle(group, to);
    var front, low := Flatten(ret, to), ToBits(acc, bits);
    assert Flatten(ret', to) == front + ToBits(top, to);
    assert ToBits(acc, bits + to) == ToBits(top, to) + low;
    assert (front + ToBits(top, to)) + low == front + (ToBits(top, to) + low);
  }

  /** The zero-filled last group (acc << (to - bits)) & maxv, and when it is zero. */
  lemma PaddedLast(acc: nat, bits: nat, to: nat)
    requires bits < to
    ensures FromBits(ToBits(acc, bits) + Zeros(to - bits)) == Low(Shl(acc, to - bits), to)
    ensures Low(Shl(acc, to - bits), to) == 0 <==> ToBits(acc, bits) == Zeros(bits)
  {
    var f := to - bits;
    var x, t := Shl(acc, f), ToBits(acc, bits);
    var padded := t + Zeros(f);
    PaddedBits(acc, bits, f);
    assert ToBits(x, to) == padded;
    FromToBits(x, to);
    ToBitsZero(x, to);
    ZerosSplit(t, f);
    assert (Low(x, to) == 0) == (padded == Zeros(to));
  }

  /** acc << f holds acc's low bits followed by f zeros. */
  lemma PaddedBits(acc: nat, bits: nat, f: nat)
    ensures ToBits(Shl(acc, f), bits + f) == ToBits(acc, bits) + Zeros(f)
  {
    ToBitsShl(acc, 0, bits, f);
    ToBitsOfZero(f);
  }

  /** A bit string followed by zeros is all zeros exactly when the bit string is. */
  lemma ZerosSplit(t: seq<bool>, f: nat)
    ensures t + Zeros(f) == Zeros(|t| + f) <==> t == Zeros(|t|)
  {
    if t == Zeros(|t|) {
      assert forall i :: 0 <= i < |t| + f ==> (t + Zeros(f))[i] == Zeros(|t| + f)[i];
    } else {
      var i :| 0 <= i < |t| && t[i];
      assert (t + Zeros(f))[i];
    }
  }

  // ---------------------------------------------------------------------------
  // Groups and flattening

  lemma {:induction false} FlattenLength(s: seq<nat>, w: nat)
    ensures |Flatten(s, w)| == w * |s|
  {
    if s != [] {
      FlattenLength(s[1..], w);
    }
  }

  lemma {:induction false} FlattenAppend(a: seq<nat>, b: seq<nat>, w: nat)
    decreases |a|
    ensures Flatten(a + b, w) == Flatten(a, w) + Flatten(b, w)
  {
    if a == [] {
      assert a + b == b;
    } else {
      assert (a + b)[0] == a[0] && (a + b)[1..] == a[1..] + b;
      FlattenAppend(a[1..], b, w);
    }
  }

  /** Cutting w-bit values back out of their bit string gives the values, leaving the tail. */
  lemma {:induction false} GroupsOfFlatten(s: seq<nat>, tail: seq<bool>, t: nat)
    requires t >= 1 && AllFit(s, t) && |tail| < t
    decreases |s|
    ensures Groups(Flatten(s, t) + tail, t) == s
    ensures Rest(Flatten(s, t) + tail, t) == tail
  {
    if s == [] {
      assert Flatten(s, t) + tail == tail;
    } else {
      var head, more := ToBits(s[0], t), Flatten(s[1..], t);
      var b := Flatten(s, t) + tail;
      assert b == head + (more + tail);
      assert b[..t] == head && b[t..] == more + tail;
      FromToBits(s[0], t);
      LowOfSmall(s[0], t);
      GroupsOfFlatten(s[1..], tail, t);
      assert s == [s[0]] + s[1..];
    }
  }

  /** Each group is a `t`-bit number. */
  lemma {:induction false} GroupsFit(b: seq<bool>, t: nat)
    requires t >= 1
    decreases |b|
    ensures AllFit(Groups(b, t), t)
  {
    if |b| >= t {
      GroupsFit(b[t..], t);
      FromBitsBound(b[..t]);
      var g := Groups(b, t);
      assert g == [FromBits(b[..t])] + Groups(b[t..], t);
      assert forall i :: 1 <= i < |g| ==> g[i] == Groups(b[t..], t)[i - 1];
    }
  }

  /** The groups, flattened back, followed by the leftover bits give b again. */
  lemma {:induction false} GroupsSplit(b: seq<bool>, t: nat)
    requires t >= 1
    decreases |b|
    ensures AllFit(Groups(b, t), t)
    ensures b == Flatten(Groups(b, t), t) + Rest(b, t)
  {
    GroupsFit(b, t);
    if |b| >= t {
      GroupsSplit(b[t..], t);
      ToFromBits(b[..t]);
      var head, more := b[..t], b[t..];
      var g := Groups(b, t);
      assert g == [FromBits(head)] + Groups(more, t);
      assert g[0] == FromBits(head) && g[1..] == Groups(more, t);
      var fm, r := Flatten(Groups(more, t), t), Rest(more, t);
      assert Rest(b, t) == r;
      assert Flatten(g, t) == head + fm;
      assert b == head + (fm + r);
      assert head + (fm + r) == (head + fm) + r;
    }
  }

  lemma FlattenSingle(x: nat, w: nat)
    ensures Flatten([x], w) == ToBits(x, w)
  {
    assert [x][1..] == [];
  }

  // ---------------------------------------------------------------------------
  // What the two modes return

  /** How many zero bits padding adds: none when b splits evenly, else what fills the last group. */
  function PadCount(b: seq<bool>, to: nat): (k: nat)
    requires to >= 1
    ensures k < to
  {
    var rest := Rest(b, to);
    if rest == [] then 0 else to - |rest|
  }

  /** Padding yields fitting groups whose bits are b followed by PadCount zeros. */
  lemma PadGroupsShape(b: seq<bool>, to: nat)
    requires to >= 1
    ensures AllFit(PadGroups(b, to), to)
    ensures Flatten(PadGroups(b, to), to) == b + Zeros(PadCount(b, to))
  {
    GroupsSplit(b, to);
    var g, rest := Groups(b, to), Rest(b, to);
    if rest == [] {
      assert PadGroups(b, to) == g;
      assert b + Zeros(0) == b;
    } else {
      PadLast(g, rest, to);
    }
  }

  /** The zero-filled last group fits and contributes the leftover bits and the zeros. */
  lemma PadLast(g: seq<nat>, rest: seq<bool>, to: nat)
    requires |rest| < to
    ensures var last := FromBits(rest + Zeros(to - |rest|));
      && last < Pow2(to)
      && Flatten(g + [last], to) == Flatten(g, to) + rest + Zeros(to - |rest|)
  {
    var zeros := Zeros(to - |rest|);
    var bits := rest + zeros;
    var last := FromBits(bits);
    LastGroup(bits, to);
    FlattenAppend(g, [last], to);
    var front := Flatten(g, to);
    assert front + bits == front + rest + zeros;
  }

  /** A `to`-bit string read as one group gives back that string. */
  lemma LastGroup(bits: seq<bool>, to: nat)
    requires |bits| == to
    ensures FromBits(bits) < Pow2(to) && Flatten([FromBits(bits)], to) == bits
  {
    FromBitsBound(bits);
    ToFromBits(bits);
    FlattenSingle(FromBits(bits), to);
  }

  /** Padding returns the only fitting groups whose bits are b followed by fewer than `to` zeros. */
  lemma PadGroupsUnique(b: seq<bool>, to: nat, y: seq<nat>, k: nat)
    requires to >= 1 && AllFit(y, to) && k < to
    requires Flatten(y, to) == b + Zeros(k)
    ensures PadGroups(b, to) == y
  {
    if k == 0 {
      assert Flatten(y, to) + [] == b;
      GroupsOfFlatten(y, [], to);
      assert y + [] == y;
    } else {
      PaddedUnique(b, to, y, k);
    }
  }

  /** The case of PadGroupsUnique with k > 0 padding zeros, which all fall in the last group. */
  lemma PaddedUnique(b: seq<bool>, to: nat, y: seq<nat>, k: nat)
    requires 0 < k < to && AllFit(y, to)
    requires Flatten(y, to) == b + Zeros(k)
    ensures PadGroups(b, to) == y
  {
    SplitLast(y, to, k, b);
    var n := |y| - 1;
    PaddedFromParts(b, to, y[..n], y[n], ToBits(y[n], to)[..to - k], k);
    InitLast(y);
  }

  /** b made of the groups init and a head of `last`'s bits whose remaining k bits are zero pads to init + [last]. */
  lemma PaddedFromParts(b: seq<bool>, to: nat, init: seq<nat>, last: nat, head: seq<bool>, k: nat)
    requires 0 < k < to && AllFit(init, to) && last < Pow2(to) && |head| == to - k
    requires b == Flatten(init, to) + head && ToBits(last, to) == head + Zeros(k)
    ensures PadGroups(b, to) == init + [last]
  {
    GroupsOfFlatten(init, head, to);
    FromToBits(last, to);
    LowOfSmall(last, to);
    var rest := Rest(b, to);
    assert rest == head && rest != [];
    assert FromBits(rest + Zeros(to - |rest|)) == last;
  }

  lemma InitLast(y: seq<nat>)
    requires |y| > 0
    ensures y[..|y| - 1] + [y[|y| - 1]] == y
  {
  }

  /** When the groups' bits are b and k > 0 zeros, b ends inside the last group, whose last k bits are zero. */
  lemma SplitLast(y: seq<nat>, to: nat, k: nat, b: seq<bool>)
    requires 0 < k < to && Flatten(y, to) == b + Zeros(k)
    ensures |y| > 0
    ensures var n := |y| - 1; var last := ToBits(y[n], to);
      b == Flatten(y[..n], to) + last[..to - k] && last == last[..to - k] + Zeros(k)
  {
    assert y != [];
    var n := |y| - 1;
    var init, last := Flatten(y[..n], to), ToBits(y[n], to);
    assert y == y[..n] + [y[n]];
    FlattenAppend(y[..n], [y[n]], to);
    FlattenSingle(y[n], to);
    assert init + last == b + Zeros(k);
    assert |b| == |init| + to - k;
    assert b == (init + last)[..|b|] == init + last[..to - k];
    assert last[to - k..] == (init + last)[|b|..] == Zeros(k);
    assert last == last[..to - k] + last[to - k..];
  }

  /** A strict result is fitting groups whose bits, followed by fewer than `from` zeros, are b. */
  lemma StrictGroupsShape(b: seq<bool>, from: nat, to: nat)
    requires to >= 1 && StrictGroups(b, from, to).Some?
    ensures var x := StrictGroups(b, from, to).value;
      && AllFit(x, to) && |Rest(b, to)| < from
      && b == Flatten(x, to) + Zeros(|Rest(b, to)|)
  {
    GroupsSplit(b, to);
  }

  /** Strict mode accepts every b that is fitting groups followed by fewer than `from` (and `to`) zeros. */
  lemma StrictGroupsUnique(b: seq<bool>, from: nat, to: nat, x: seq<nat>, k: nat)
    requires to >= 1 && AllFit(x, to) && k < from && k < to
    requires b == Flatten(x, to) + Zeros(k)
    ensures StrictGroups(b, from, to) == Some(x)
  {
    GroupsOfFlatten(x, Zeros(k), to);
  }

  // ---------------------------------------------------------------------------
  // The two conversions the codec uses

  predicate AllBytes(s: seq<nat>)
  {
    forall i :: 0 <= i < |s| ==> s[i] < 256
  }

  lemma Pow2Five()
    ensures Pow2(5) == 32 && Pow2(8) == 256
  {
    assert Pow2(3) == 8;
    assert Pow2(5) == 32;
    assert Pow2(8) == 2 * 2 * 2 * Pow2(5);
  }

  /**
   * convertbits(data, 8, 5) always succeeds on bytes, with ceil(8n / 5)
   * symbols (none for empty input): the bits of the bytes, zero-filled on the
   * right to a multiple of five.
   */
  lemma EightToFive(data: seq<nat>)
    requires AllBytes(data)
    ensures var r := Regroup(data, 8, 5, true);
      && r.Some? && Below32(r.value) && |r.value| == (8 * |data| + 4) / 5
      && 8 * |data| <= 5 * |r.value| < 8 * |data| + 5
      && Flatten(r.value, 5) == Flatten(data, 8) + Zeros(5 * |r.value| - 8 * |data|)
  {
    Pow2Five();
    var b := Flatten(data, 8);
    var y := PadGroups(b, 5);
    PadGroupsShape(b, 5);
    FlattenLength(data, 8);
    FlattenLength(y, 5);
  }

  /** Every five bytes give exactly eight symbols. */
  lemma FiveBytesEightSymbols(data: seq<nat>)
    requires AllBytes(data) && |data| % 5 == 0
    ensures |Regroup(data, 8, 5, true).value| == 8 * (|data| / 5)
  {
    EightToFive(data);
  }

  /**
   * convertbits(data, 5, 8, False) on symbols: on success floor(5i / 8)
   * bytes whose bits, followed by fewer than five zeros, are the symbols' bits.
   */
  lemma FiveToEight(data: seq<nat>)
    requires Below32(data)
    ensures var r := Regroup(data, 5, 8, false);
      r.Some? ==> (AllBytes(r.value) && |r.value| == 5 * |data| / 8
        && 8 * |r.value| <= 5 * |data| < 8 * |r.value| + 5
        && Flatten(data, 5) == Flatten(r.value, 8) + Zeros(5 * |data| - 8 * |r.value|))
  {
    Pow2Five();
    var b := Flatten(data, 5);
    if StrictGroups(b, 5, 8).Some? {
      StrictGroupsShape(b, 5, 8);
      FlattenLength(data, 5);
      FlattenLength(StrictGroups(b, 5, 8).value, 8);
    }
  }

  /**
   * Strict 5-to-8 fails exactly when the leftover bit count 5i mod 8 is five
   * or more, or when the leftover bits are not all zero.
   */
  lemma FiveToEightFails(data: seq<nat>)
    requires Below32(data)
    ensures var b := Flatten(data, 5); var n := |b|;
      && n == 5 * |data|
      && (Regroup(data, 5, 8, false).None? <==> (n % 8 >= 5 || b[n - n % 8..] != Zeros(n % 8)))
  {
    Pow2Five();
    FlattenLength(data, 5);
    RestIsTail(Flatten(data, 5));
  }

  /** Cut into bytes, the leftover bits are the last |b| mod 8 bits. */
  lemma RestIsTail(b: seq<bool>)
    ensures |Rest(b, 8)| == |b| % 8 && Rest(b, 8) == b[|b| - |b| % 8..]
  {
    GroupsSplit(b, 8);
    var g, rest := Groups(b, 8), Rest(b, 8);
    FlattenLength(g, 8);
    assert |b| == 8 * |g| + |rest|;
    Remainder8(|b|, |g|, |rest|);
    assert rest == b[|b| - |rest|..];
  }

  lemma Remainder8(n: nat, q: nat, r: nat)
    requires n == 8 * q + r && r < 8
    ensures n % 8 == r
  {
  }

  /** Symbol counts of 1, 3 or 6 modulo 8 leave five or more bits and never convert to bytes. */
  lemma FiveToEightBadLengths(data: seq<nat>)
    requires Below32(data) && (|data| % 8 == 1 || |data| % 8 == 3 || |data| % 8 == 6)
    ensures Regroup(data, 5, 8, false).None?
  {
    FiveToEightFails(data);
  }

  /** The strict 5-to-8 conversion undoes the padded 8-to-5 conversion. */
  lemma BytesRoundTrip(data: seq<nat>)
    requires AllBytes(data)
    ensures Regroup(Regroup(data, 8, 5, true).value, 5, 8, false) == Some(data)
  {
    Pow2Five();
    EightToFive(data);
    var y := Regroup(data, 8, 5, true).value;
    StrictGroupsUnique(Flatten(y, 5), 5, 8, data, 5 * |y| - 8 * |data|);
  }

  /** A successful strict 5-to-8 conversion re-pads to the symbols it came from. */
  lemma SymbolsRoundTrip(data: seq<nat>)
    requires Below32(data) && Regroup(data, 5, 8, false).Some?
    ensures Regroup(Regroup(data, 5, 8, false).value, 8, 5, true) == Some(data)
  {
    Pow2Five();
    FiveToEight(data);
    var x := Regroup(data, 5, 8, false).value;
    PadGroupsUnique(Flatten(x, 8), 5, data, 5 * |data| - 8 * |x|);
  }

  // ---------------------------------------------------------------------------
  // last_bits

  /** last_bits(s): what follows the last complete 40-bit block (five bytes, eight symbols). */
  function LastBits<T>(s: seq<T>): (r: seq<T>)
    ensures |r| == |s| % 40
    ensures s == s[..|s| - |s| % 40] + r
  {
    if |s| % 40 == 0 then [] else s[40 * (|s| / 40)..]
  }

  /** Whole 40-element blocks in front do not change the tail. */
  lemma LastBitsBlocks<T>(a: seq<T>, s: seq<T>)
    requires |a| % 40 == 0
    ensures LastBits(a + s) == LastBits(s)
  {
    var n := |a| / 40;
    assert (a + s)[40 * ((|a| + |s|) / 40)..] == s[40 * (|s| / 40)..];
  }
}
