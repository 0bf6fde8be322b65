/** Big-endian byte arithmetic on addresses and masks, related to integers. */
module IpBytes {

  type byte = b: int | 0 <= b < 256

  function Pow2(n: nat): (p: nat)
    ensures p > 0
  {
    if n == 0 then 1 else 2 * Pow2(n - 1)
  }

  lemma {:induction false} Pow2Add(m: nat, n: nat)
    ensures Pow2(m + n) == Pow2(m) * Pow2(n)
  {
    if m == 0 {
    } else {
      Pow2Add(m - 1, n);
      assert Pow2(m + n) == 2 * Pow2(m - 1 + n);
    }
  }

  lemma Pow2Of8()
    ensures Pow2(8) == 256
  {
    assert Pow2(4) == 16;
    Pow2Add(4, 4);
  }

  lemma Pow2Plus8(n: nat)
    ensures Pow2(n + 8) == 256 * Pow2(n)
  {
    Pow2Add(n, 8);
    Pow2Of8();
  }

  /** The integer a big-endian byte string denotes. */
  function Value(s: seq<byte>): nat {
    if s == [] then 0 else Value(s[..|s| - 1]) * 256 + s[|s| - 1]
  }

  lemma ValueSnoc(s: seq<byte>, b: byte)
    ensures Value(s + [b]) == Value(s) * 256 + b
  {
    assert (s + [b])[..|s|] == s;
  }

  lemma {:induction false} ValueBound(s: seq<byte>)
    ensures Value(s) < Pow2(8 * |s|)
  {
    if s != [] {
      var front := s[..|s| - 1];
      ValueBound(front);
      Pow2Plus8(8 * |front|);
    }
  }

  lemma {:induction false} ValueInjective(s: seq<byte>, t: seq<byte>)
    requires |s| == |t| && Value(s) == Value(t)
    ensures s == t
  {
    if s != [] {
      var n := |s| - 1;
      ValueInjective(s[..n], t[..n]);
      assert s == s[..n] + [s[n]] && t == t[..n] + [t[n]];
    }
  }

  lemma EqualByValue(s: seq<byte>, t: seq<byte>)
    requires |s| == |t|
    ensures s == t <==> Value(s) == Value(t)
  {
    if Value(s) == Value(t) {
      ValueInjective(s, t);
    }
  }

  // ----- increment -----

  /** One more, carrying from the right, dropping the carry out of the first byte. */
  function Inc(s: seq<byte>): (r: seq<byte>)
    ensures |r| == |s|
  {
    if s == [] then []
    else if s[|s| - 1] == 255 then Inc(s[..|s| - 1]) + [0]
    else s[..|s| - 1] + [s[|s| - 1] + 1]
  }

  /** In-place increment is +1 modulo 256^n. */
  lemma {:induction false} IncIsPlusOne(s: seq<byte>)
    ensures Value(s) < Pow2(8 * |s|)
    ensures Value(Inc(s)) == if Value(s) + 1 == Pow2(8 * |s|) then 0 else Value(s) + 1
  {
    if s != [] {
      var n := |s| - 1;
      Pow2Plus8(8 * n);
      ValueBound(s);
      IncIsPlusOne(s[..n]);
      if s[n] == 255 {
        ValueSnoc(Inc(s[..n]), 0);
      } else {
        ValueSnoc(s[..n], s[n] + 1);
      }
    }
  }

  function Zeros(n: nat): (r: seq<byte>)
    ensures |r| == n
  {
    seq(n, i => 0)
  }

  lemma {:induction false} ZerosGrow(front: seq<byte>, n: nat)
    ensures front + [0] + Zeros(n) == front + Zeros(n + 1)
  {
    assert [0] + Zeros(n) == Zeros(n + 1);
  }

  /** `ip[i]++` on a byte, wrapping. */
  function Next(b: byte): byte {
    if b == 255 then 0 else b + 1
  }

  /** incIP, in place. */
  method IncIP(ip: array<byte>)
    modifies ip
    ensures ip[..] == Inc(old(ip[..]))
  {
    ghost var was := ip[..];
    var i := ip.Length - 1;
    assert was[..i + 1] == was && Inc(was) == Inc(was[..i + 1]) + Zeros(0);
    while i >= 0
      invariant -1 <= i < ip.Length
      invariant ip[..] == was[..i + 1] + Zeros(ip.Length - 1 - i)
      invariant Inc(was) == Inc(was[..i + 1]) + Zeros(ip.Length - 1 - i)
      decreases i
    {
      ghost var zeros := Zeros(ip.Length - 1 - i);
      assert ip[i] == was[i] && was[..i + 1][..i] == was[..i];
      ip[i] := Next(ip[i]);
      assert ip[..] == was[..i] + [Next(was[i])] + zeros;
      if ip[i] != 0 {
        break;
      }
      ZerosGrow(Inc(was[..i]), ip.Length - 1 - i);
      ZerosGrow(was[..i], ip.Length - 1 - i);
      i := i - 1;
    }
  }

  // ----- bitwise operations on bytes -----

  /** Bitwise and of two numbers of `n` bits. */
  function BitAnd(a: nat, b: nat, n: nat): (r: nat)
    ensures r <= a
  {
    if n == 0 then 0 else 2 * BitAnd(a / 2, b / 2, n - 1) + (if a % 2 == 1 && b % 2 == 1 then 1 else 0)
  }

  /** Bitwise or of two numbers of `n` bits. */
  function BitOr(a: nat, b: nat, n: nat): nat {
    if n == 0 then 0 else 2 * BitOr(a / 2, b / 2, n - 1) + (if a % 2 == 1 || b % 2 == 1 then 1 else 0)
  }

  /** The greatest multiple of 2^h that is at most `x`. */
  function RoundDown(x: nat, h: nat): nat {
    if h == 0 then x else 2 * RoundDown(x / 2, h - 1)
  }

  /** Clearing the low `h` of `n` bits by a mask whose high bits are ones. */
  lemma {:induction false} MaskClearsLowBits(a: nat, h: nat, n: nat)
    requires h <= n && a < Pow2(n)
    ensures Pow2(h) <= Pow2(n) && BitAnd(a, Pow2(n) - Pow2(h), n) == RoundDown(a, h)
  {
    Pow2Monotone(h, n);
    if n > 0 {
      MaskClearsLowBits(a / 2, if h == 0 then 0 else h - 1, n - 1);
    }
  }

  /** Setting the low `h` of `n` bits. */
  lemma {:induction false} OrSetsLowBits(a: nat, h: nat, n: nat)
    requires h <= n && a < Pow2(n)
    ensures BitOr(a, Pow2(h) - 1, n) == RoundDown(a, h) + Pow2(h) - 1
  {
    if n > 0 {
      OrSetsLowBits(a / 2, if h == 0 then 0 else h - 1, n - 1);
    }
  }

  lemma {:induction false} Pow2Monotone(m: nat, n: nat)
    requires m <= n
    ensures Pow2(m) <= Pow2(n)
    decreases n
  {
    if m < n {
      Pow2Monotone(m, n - 1);
    }
  }

  // ----- masks -----

  /** A byte whose first `k` bits are ones. */
  function MaskByte(k: nat): byte
    requires k <= 8
  {
    Pow2Of8();
    Pow2Monotone(8 - k, 8);
    256 - Pow2(8 - k)
  }

  /** net.CIDRMask: `ones` leading ones in `n` bytes. */
  function Mask(ones: nat, n: nat): (m: seq<byte>)
    requires ones <= 8 * n
    ensures |m| == n
  {
    if n == 0 then []
    else if ones <= 8 * (n - 1) then Mask(ones, n - 1) + [MaskByte(0)]
    else Mask(8 * (n - 1), n - 1) + [MaskByte(ones - 8 * (n - 1))]
  }

  function AndByte(a: byte, b: byte): byte {
    BitAnd(a, b, 8)
  }

  /** `a | ^b` on bytes. */
  function OrNotByte(a: byte, b: byte): byte {
    BitOrBound(a, 255 - b, 8);
    Pow2Of8();
    BitOr(a, 255 - b, 8)
  }

  lemma {:induction false} BitOrBound(a: nat, b: nat, n: nat)
    ensures BitOr(a, b, n) < Pow2(n)
  {
    if n > 0 {
      BitOrBound(a / 2, b / 2, n - 1);
    }
  }

  /** A byte operation applied position by position. */
  function Zip(f: (byte, byte) -> byte, s: seq<byte>, m: seq<byte>): (r: seq<byte>)
    requires |s| == |m|
    ensures |r| == |s|
  {
    seq(|s|, i requires 0 <= i < |s| => f(s[i], m[i]))
  }

  function And(s: seq<byte>, m: seq<byte>): (r: seq<byte>)
    requires |s| == |m|
    ensures |r| == |s|
  {
    Zip(AndByte, s, m)
  }

  function OrNot(s: seq<byte>, m: seq<byte>): (r: seq<byte>)
    requires |s| == |m|
    ensures |r| == |s|
  {
    Zip(OrNotByte, s, m)
  }

  lemma MaskedByte(x: byte, k: nat)
    requires k <= 8
    ensures AndByte(x, MaskByte(k)) == RoundDown(x, 8 - k)
    ensures OrNotByte(x, MaskByte(k)) == RoundDown(x, 8 - k) + Pow2(8 - k) - 1
  {
    Pow2Of8();
    MaskClearsLowBits(x, 8 - k, 8);
    OrSetsLowBits(x, 8 - k, 8);
  }

  lemma RoundDownNibble(x: nat, h: nat)
    ensures RoundDown(x, h + 4) == 16 * RoundDown(x / 16, h)
  {
    assert RoundDown(x, h + 4) == 2 * RoundDown(x / 2, h + 3);
    assert RoundDown(x / 2, h + 3) == 2 * RoundDown(x / 2 / 2, h + 2);
    assert RoundDown(x / 2 / 2, h + 2) == 2 * RoundDown(x / 2 / 2 / 2, h + 1);
    assert x / 2 / 2 / 2 / 2 == x / 16;
  }

  /** Rounding away the whole low byte and `h` bits more. */
  lemma RoundDownWhole(f: nat, l: byte, h: nat)
    ensures RoundDown(f * 256 + l, h + 8) == RoundDown(f, h) * 256
  {
    var x := f * 256 + l;
    RoundDownNibble(x, h + 4);
    RoundDownNibble(x / 16, h);
    assert x / 16 / 16 == f;
  }

  /** `t` shifted left by `h` bits. */
  function Shift(t: nat, h: nat): nat {
    if h == 0 then t else 2 * Shift(t, h - 1)
  }

  lemma {:induction false} ShiftTwice(t: nat, g: nat, h: nat)
    ensures Shift(Shift(t, g), h) == Shift(t, g + h)
  {
    if h > 0 {
      ShiftTwice(t, g, h - 1);
    }
  }

  lemma {:induction false} ShiftByte(t: nat)
    ensures Shift(t, 8) == 256 * t
  {
    assert Shift(t, 1) == 2 * t;
    assert Shift(t, 2) == 4 * t;
    ShiftTwice(t, 2, 2);
    assert Shift(4 * t, 1) == 8 * t;
    assert Shift(4 * t, 2) == 16 * t;
    ShiftTwice(t, 4, 4);
    ShiftTwice(16 * t, 2, 2);
    assert Shift(16 * t, 1) == 32 * t;
    assert Shift(16 * t, 2) == 64 * t;
    assert Shift(64 * t, 1) == 128 * t;
    assert Shift(64 * t, 2) == 256 * t;
  }

  /** Multiples of 2^h pass through. */
  lemma {:induction false} RoundDownPlus(t: nat, x: nat, h: nat)
    ensures RoundDown(Shift(t, h) + x, h) == Shift(t, h) + RoundDown(x, h)
  {
    if h > 0 {
      assert (2 * Shift(t, h - 1) + x) / 2 == Shift(t, h - 1) + x / 2;
      RoundDownPlus(t, x / 2, h - 1);
    }
  }

  /** Rounding away `h` bits of the low byte only. */
  lemma {:induction false} RoundDownPart(f: nat, l: byte, h: nat)
    requires h <= 8
    ensures RoundDown(f * 256 + l, h) == f * 256 + RoundDown(l, h)
  {
    ShiftByte(f);
    ShiftTwice(f, 8 - h, h);
    RoundDownPlus(Shift(f, 8 - h), l, h);
  }

  lemma ZipSnoc(f: (byte, byte) -> byte, s: seq<byte>, m: seq<byte>, n: nat)
    requires |s| == |m| == n + 1
    ensures Zip(f, s, m) == Zip(f, s[..n], m[..n]) + [f(s[n], m[n])]
  {
  }

  /** A byte operation that, on a mask byte, rounds down and then adds the low bits (`fill`) or not. */
  ghost predicate Rounds(f: (byte, byte) -> byte, fill: bool) {
    forall x: byte, k: nat :: k <= 8 ==>
      f(x, MaskByte(k)) == RoundDown(x, 8 - k) + Low(8 - k, fill)
  }

  lemma MaskStep(ones: nat, n: nat, k: nat)
    requires ones <= 8 * (n + 1) && k == if ones <= 8 * n then 0 else ones - 8 * n
    ensures Mask(ones, n + 1) == Mask(ones - k, n) + [MaskByte(k)]
  {
  }

  function Low(h: nat, fill: bool): nat {
    if fill then Pow2(h) - 1 else 0
  }

  /** The value under a mask with `h` low bits cleared, or set (`fill`). */
  function Masked(v: nat, h: nat, fill: bool): nat {
    RoundDown(v, h) + Low(h, fill)
  }

  lemma {:induction false} ZipMask(f: (byte, byte) -> byte, fill: bool, s: seq<byte>, ones: nat, h: nat)
    requires Rounds(f, fill) && ones + h == 8 * |s|
    ensures Value(Zip(f, s, Mask(ones, |s|))) == Masked(Value(s), h, fill)
    decreases |s|
  {
    if s == [] {
      assert Value(Zip(f, s, Mask(ones, |s|))) == 0;
    } else if h >= 8 {
      ZipMask(f, fill, s[..|s| - 1], ones, h - 8);
      ZipMaskLast(f, fill, s, ones, ones, h - 8, 0);
    } else {
      ZipMask(f, fill, s[..|s| - 1], 8 * (|s| - 1), 0);
      ZipMaskLast(f, fill, s, ones, 8 * (|s| - 1), 0, 8 - h);
    }
  }

  lemma {:induction false} ZipMaskLast(f: (byte, byte) -> byte, fill: bool, s: seq<byte>, ones: nat, front: nat,
                                       h: nat, k: nat)
    requires Rounds(f, fill) && s != [] && k <= 8 && (k > 0 ==> h == 0)
    requires front + h == 8 * (|s| - 1) && ones == front + k
    requires Value(Zip(f, s[..|s| - 1], Mask(front, |s| - 1))) == Masked(Value(s[..|s| - 1]), h, fill)
    ensures Value(Zip(f, s, Mask(ones, |s|))) == Masked(Value(s), h + 8 - k, fill)
  {
    var n := |s| - 1;
    MaskStep(ones, n, k);
    var m := Mask(front, n) + [MaskByte(k)];
    assert Mask(ones, |s|) == m;
    ZipMaskStep(f, fill, s, Mask(front, n), k);
    ValueStep(s, n);
    BlockStep(Value(Zip(f, s[..n], Mask(front, n))), Value(s[..n]), s[n], h, k, fill);
  }

  lemma ValueStep(s: seq<byte>, n: nat)
    requires |s| == n + 1
    ensures Value(s) == Value(s[..n]) * 256 + s[n]
  {
  }

  /** One more byte under the mask: the whole byte is dropped (`k == 0`), or the bits after its first `k`. */
  lemma {:induction false} BlockStep(masked: nat, front: nat, last: byte, h: nat, k: nat, fill: bool)
    requires k <= 8 && (k > 0 ==> h == 0) && masked == Masked(front, h, fill)
    ensures masked * 256 + RoundDown(last, 8 - k) + Low(8 - k, fill) == Masked(front * 256 + last, h + 8 - k, fill)
  {
    if k == 0 {
      RoundDownWhole(front, last, h);
      RoundDownWhole(0, last, 0);
      Pow2Plus8(h);
      Pow2Of8();
    } else {
      RoundDownPart(front, last, 8 - k);
    }
  }

  lemma ZipMaskStep(f: (byte, byte) -> byte, fill: bool, s: seq<byte>, m: seq<byte>, k: nat)
    requires |s| == |m| + 1 && k <= 8 && Rounds(f, fill)
    ensures Value(Zip(f, s, m + [MaskByte(k)]))
         == Value(Zip(f, s[..|m|], m)) * 256 + RoundDown(s[|m|], 8 - k) + Low(8 - k, fill)
  {
    var mask := m + [MaskByte(k)];
    ZipSnoc(f, s, mask, |m|);
    assert mask[..|m|] == m;
    ValueSnoc(Zip(f, s[..|m|], m), f(s[|m|], MaskByte(k)));
  }

  lemma ByteOperationsRound()
    ensures Rounds(AndByte, false) && Rounds(OrNotByte, true)
  {
    forall x: byte, k: nat | k <= 8
      ensures AndByte(x, MaskByte(k)) == RoundDown(x, 8 - k)
      ensures OrNotByte(x, MaskByte(k)) == RoundDown(x, 8 - k) + Pow2(8 - k) - 1
    {
      MaskedByte(x, k);
    }
  }

  /** Masking byte by byte rounds down to the network; or-ing the inverted mask gives the block's last address. */
  lemma MaskedValue(s: seq<byte>, ones: nat)
    requires ones <= 8 * |s|
    ensures Value(And(s, Mask(ones, |s|))) == RoundDown(Value(s), 8 * |s| - ones)
    ensures Value(OrNot(s, Mask(ones, |s|))) == RoundDown(Value(s), 8 * |s| - ones) + Pow2(8 * |s| - ones) - 1
  {
    ByteOperationsRound();
    ZipMask(AndByte, false, s, ones, 8 * |s| - ones);
    ZipMask(OrNotByte, true, s, ones, 8 * |s| - ones);
  }

  /** Two numbers round down to the same multiple exactly when they lie in the same block. */
  lemma {:induction false} SameBlock(a: nat, b: nat, h: nat)
    ensures RoundDown(a, h) == RoundDown(b, h) <==> RoundDown(b, h) <= a < RoundDown(b, h) + Pow2(h)
  {
    if h > 0 {
      SameBlock(a / 2, b / 2, h - 1);
    }
  }

  /** ipnet.Contains: both addresses agree under the mask. */
  predicate Contains(net: seq<byte>, mask: seq<byte>, ip: seq<byte>)
    requires |net| == |mask| == |ip|
  {
    And(net, mask) == And(ip, mask)
  }

  lemma SameValue(zs: seq<byte>, zt: seq<byte>, s: nat, t: nat, h: nat)
    requires |zs| == |zt| && Value(zs) == RoundDown(s, h) && Value(zt) == RoundDown(t, h)
    ensures zt == zs <==> RoundDown(t, h) <= s < RoundDown(t, h) + Pow2(h)
  {
    SameBlock(s, t, h);
    EqualByValue(zt, zs);
  }

  /** Byte-wise masked containment is an integer interval. */
  lemma ContainsIsInterval(ip: seq<byte>, net: seq<byte>, mask: seq<byte>, ones: nat, h: nat)
    requires |ip| == |net| == |mask| && ones + h == 8 * |net| && mask == Mask(ones, |net|)
    ensures Contains(net, mask, ip) <==> RoundDown(Value(net), h) <= Value(ip) < RoundDown(Value(net), h) + Pow2(h)
  {
    MaskedNetwork(ip, mask, ones, h);
    MaskedNetwork(net, mask, ones, h);
    SameValue(And(ip, mask), And(net, mask), Value(ip), Value(net), h);
  }

  lemma MaskedNetwork(s: seq<byte>, mask: seq<byte>, ones: nat, h: nat)
    requires |s| == |mask| && ones + h == 8 * |s| && mask == Mask(ones, |s|)
    ensures Value(And(s, mask)) == RoundDown(Value(s), h)
  {
    MaskedValue(s, ones);
  }

  /** lastAddr, filling a fresh array. */
  method LastAddr(net: seq<byte>, mask: seq<byte>) returns (ip: array<byte>)
    requires |net| == |mask|
    ensures fresh(ip) && ip[..] == OrNot(net, mask)
  {
    ip := new byte[|net|];
    for i := 0 to ip.Length
      invariant forall j :: 0 <= j < i ==> ip[j] == OrNotByte(net[j], mask[j])
    {
      ip[i] := OrNotByte(net[i], mask[i]);
    }
  }
}
