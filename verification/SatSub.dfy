/** Comparing record numbers: the bytewise saturating subtraction of d1_pkt.c. */
module SatSub {
  import opened Bits

  function Pow256(k: nat): (p: nat)
    ensures p >= 1
  {
    if k == 0 then 1 else 256 * Pow256(k - 1)
  }

  const POW_2_48 := 0x1_0000_0000_0000
  const POW_2_56 := 0x100_0000_0000_0000
  const POW_2_64 := 0x1_0000_0000_0000_0000

  lemma {:induction false} Powers()
    ensures Pow256(0) == 1 && Pow256(6) == POW_2_48 && Pow256(7) == POW_2_56 && Pow256(8) == POW_2_64
  {
    assert Pow256(1) == 256 && Pow256(2) == 0x1_0000 && Pow256(3) == 0x100_0000;
    assert Pow256(4) == 0x1_0000_0000 && Pow256(5) == 0x100_0000_0000;
  }

  lemma {:induction false} BigEndianBound(s: seq<byte>)
    ensures BigEndian(s) < Pow256(|s|)
  {
    if s != [] {
      BigEndianBound(s[..|s| - 1]);
    }
  }

  lemma {:induction false} AllZeros(a: seq<byte>)
    requires forall k | 0 <= k < |a| :: a[k] == 0
    ensures BigEndian(a) == 0
  {
    if a != [] {
      AllZeros(a[..|a| - 1]);
    }
  }

  /** The leading byte counts `256^n` when `n` bytes follow it. */
  lemma {:induction false} BigEndianCons(b: byte, rest: seq<byte>)
    ensures BigEndian([b] + rest) == b * Pow256(|rest|) + BigEndian(rest)
  {
    var s := [b] + rest;
    if rest == [] {
      assert s[..0] == [];
    } else {
      var n := |rest| - 1;
      assert s[..|s| - 1] == [b] + rest[..n];
      BigEndianCons(b, rest[..n]);
    }
  }

  function Clamp(d: int): int {
    if d > 128 then 128 else if d < -128 then -128 else d
  }

  /** What the subtraction returns, in terms of the difference `d` of the two 64-bit values: exact in
      the middle, the nearer of -128 and 128 outside, but for differences within 128 of 2^64. */
  function SatSubOf(d: int): int {
    if -128 <= d < 128 then d
    else if d >= POW_2_64 - 128 then 256 - (POW_2_64 - d)
    else if d < 128 - POW_2_64 then d + POW_2_64 - 256
    else if d > 0 then 128 else -128
  }

  /** For values below 2^48, all that occur in records, it is the difference clamped to [-128, 128]. */
  lemma {:induction false} ExactBelow48Bits(a: nat, b: nat)
    requires a < POW_2_48 && b < POW_2_48
    ensures SatSubOf(a - b) == Clamp(a - b)
  {
  }

  /** For all 64-bit values the sign is right and a result inside (-128, 128) is exact. */
  lemma {:induction false} SignIsRight(a: nat, b: nat)
    requires a < POW_2_64 && b < POW_2_64
    ensures SatSubOf(a - b) > 0 <==> a > b
    ensures SatSubOf(a - b) < 0 <==> a < b
    ensures -128 < SatSubOf(a - b) < 128 ==> SatSubOf(a - b) == a - b
  {
  }

  lemma {:induction false} OrZero(a: nat, b: nat)
    ensures Or(a, b) == 0 <==> a == 0 && b == 0
  {
    if a != 0 || b != 0 {
      OrZero(a / 2, b / 2);
    }
  }

  /** What the loop knows when the low `n` bytes have been subtracted. */
  ghost predicate Split(d: int, n: nat, brw: int, middle: nat, low: nat) {
    var splits :=
      && 1 <= n && -1 <= brw <= 0 && low < 256 && middle < Pow256(n - 1)
      && d == brw * Pow256(n) + middle * 256 + low;
    splits
  }

  lemma {:induction false} SplitStep(d: int, n: nat, brw: int, middle: nat, low: nat, x: int, t: int)
    requires Split(d, n, brw, middle, low) && -255 <= x <= 255 && t == brw + x
    ensures Split(d + x * Pow256(n), n + 1, t / 256, (t % 256) * Pow256(n - 1) + middle, low)
  {
    var p := Pow256(n - 1);
    var q, r := t / 256, t % 256;
    assert Pow256(n) == 256 * p && Pow256(n + 1) == 256 * (256 * p);
    Regroup(brw, x, q, r, p);
    TopDigit(r, p, middle);
  }

  lemma {:induction false} Regroup(brw: int, x: int, q: int, r: int, p: int)
    requires brw + x == 256 * q + r
    ensures brw * (256 * p) + x * (256 * p) == q * (256 * (256 * p)) + (r * p) * 256
  {
    assert brw * (256 * p) + x * (256 * p) == (256 * q + r) * (256 * p);
  }

  lemma {:induction false} TopDigit(r: nat, p: nat, m: nat)
    requires r < 256 && p >= 1 && m < p
    ensures r * p + m < 256 * p
    ensures r * p + m == 0 <==> r == 0 && m == 0
    ensures r * p + m == 256 * p - 1 <==> r == 255 && m == p - 1
  {
    if r < 255 {
      assert r * p <= 254 * p;
    }
    if r > 0 {
      assert r * p >= p;
    }
  }

  lemma {:induction false} SuffixStep(s: seq<byte>, i: nat)
    requires i < |s|
    ensures BigEndian(s[i..]) == s[i] * Pow256(|s| - 1 - i) + BigEndian(s[i + 1..])
  {
    assert s[i..] == [s[i]] + s[i + 1..];
    BigEndianCons(s[i], s[i + 1..]);
  }

  function SuffixDiff(s1: seq<byte>, s2: seq<byte>, i: nat): int
    requires |s1| == |s2| == 8 && i <= 8
  {
    BigEndian(s1[i..]) - BigEndian(s2[i..])
  }

  lemma {:induction false} SuffixDiffStep(s1: seq<byte>, s2: seq<byte>, i: nat)
    requires |s1| == |s2| == 8 && i < 8
    ensures SuffixDiff(s1, s2, i) == SuffixDiff(s1, s2, i + 1) + (s1[i] as int - s2[i]) * Pow256(7 - i)
  {
    SuffixStep(s1, i);
    SuffixStep(s2, i);
    Distribute(s1[i], s2[i], Pow256(7 - i));
  }

  lemma {:induction false} Distribute(a: int, b: int, p: int)
    ensures (a - b) * p == a * p - b * p
  {
  }

  /** Saturation is off exactly when the middle agrees with the sign of the low byte all the way up. */
  ghost predicate Agrees(p: nat, middle: nat, low: nat, sat: nat) {
    var agrees := sat == 0 <==> middle == if low >= 128 then p - 1 else 0;
    agrees
  }

  lemma {:induction false} AgreesStep(n: nat, middle: nat, low: nat, sat: nat, r: nat)
    requires middle < Pow256(n) && r < 256 && Agrees(Pow256(n), middle, low, sat)
    ensures Agrees(Pow256(n + 1), r * Pow256(n) + middle, low, Or(sat, if low >= 128 then 255 - r else r))
  {
    TopDigit(r, Pow256(n), middle);
    if low >= 128 {
      OrZero(sat, 255 - r);
    } else {
      OrZero(sat, r);
    }
  }

  /** What has been found before byte `i` is subtracted. */
  ghost predicate Inv(s1: seq<byte>, s2: seq<byte>, i: nat, brw: int, middle: nat, low: nat, sat: nat)
    requires |s1| == |s2| == 8 && i <= 7
  {
    Split(SuffixDiff(s1, s2, i), 8 - i, brw, middle, low) && Agrees(Pow256(7 - i), middle, low, sat)
  }

  /** What one byte of the difference does to the saturation. */
  function Saturated(sat: nat, low: nat, t: int): nat
    requires low < 256
  {
    Or(sat, if low >= 128 then 255 - t % 256 else t % 256)
  }

  lemma {:induction false} InvStepSplit(
    s1: seq<byte>, s2: seq<byte>, i: nat, brw: int, middle: nat, low: nat, t: int)
    requires |s1| == |s2| == 8 && i < 7 && t == brw + (s1[i] as int - s2[i])
    requires Split(SuffixDiff(s1, s2, i + 1), 7 - i, brw, middle, low)
    ensures Split(SuffixDiff(s1, s2, i), 8 - i, t / 256, t % 256 * Pow256(6 - i) + middle, low)
  {
    SuffixDiffStep(s1, s2, i);
    SplitStep(SuffixDiff(s1, s2, i + 1), 7 - i, brw, middle, low, s1[i] as int - s2[i], t);
  }

  lemma {:induction false} InvStep(
    s1: seq<byte>, s2: seq<byte>, i: nat, brw: int, middle: nat, low: nat, sat: nat, t: int) returns (middle': nat)
    requires |s1| == |s2| == 8 && i < 7 && low < 256 && Inv(s1, s2, i + 1, brw, middle, low, sat)
    requires t == brw + (s1[i] as int - s2[i])
    ensures Inv(s1, s2, i, t / 256, middle', low, Saturated(sat, low, t))
  {
    middle' := t % 256 * Pow256(6 - i) + middle;
    InvStepSplit(s1, s2, i, brw, middle, low, t);
    AgreesStep(6 - i, middle, low, sat, t % 256);
  }

  lemma {:induction false} InvStart(s1: seq<byte>, s2: seq<byte>)
    requires |s1| == |s2| == 8
    ensures var ret := s1[7] as int - s2[7];
            Inv(s1, s2, 7, ret / 256, 0, ret % 256, 0)
  {
    SuffixDiffStep(s1, s2, 7);
    assert s1[8..] == [] && s2[8..] == [];
    assert Pow256(0) == 1 && Pow256(1) == 256 * Pow256(0);
  }

  /** Borrow and saturation when the bytes from the last down to byte `i` have been subtracted; the low
      byte of ~t is what that of t lacks of 255. */
  function Carried(s1: seq<byte>, s2: seq<byte>, i: nat, low: byte): (int, nat)
    requires |s1| == |s2| == 8 && i <= 7
    decreases 7 - i
  {
    if i == 7 then ((s1[7] as int - s2[7]) / 256, 0) else
      var (brw, sat) := Carried(s1, s2, i + 1, low);
      var t := brw + (s1[i] as int - s2[i]);
      (t / 256, Saturated(sat, low, t))
  }

  lemma {:induction false} CarriedStep(s1: seq<byte>, s2: seq<byte>, i: nat, low: byte, brw: int, sat: nat)
    requires |s1| == |s2| == 8 && i < 7 && Carried(s1, s2, i + 1, low) == (brw, sat)
    ensures var t := brw + (s1[i] as int - s2[i]);
      Carried(s1, s2, i, low) == (t / 256, Saturated(sat, low, t))
  {
  }

  lemma {:induction false} CarriedInv(s1: seq<byte>, s2: seq<byte>, i: nat, low: byte, brw: int, sat: nat)
    returns (middle: nat)
    requires |s1| == |s2| == 8 && i <= 7 && low == (s1[7] as int - s2[7]) % 256
    requires Carried(s1, s2, i, low) == (brw, sat)
    ensures Inv(s1, s2, i, brw, middle, low, sat)
    decreases 7 - i
  {
    if i == 7 {
      InvStart(s1, s2);
      middle := 0;
    } else {
      var (b, a) := Carried(s1, s2, i + 1, low);
      var m := CarriedInv(s1, s2, i + 1, low, b, a);
      middle := CarriedInvStep(s1, s2, i, low, b, a, m, brw, sat);
    }
  }

  /** Their end is the saturated difference. */
  lemma {:induction false} CarriedInvStep(
    s1: seq<byte>, s2: seq<byte>, i: nat, low: byte, b: int, a: nat, m: nat, brw: int, sat: nat) returns (middle: nat)
    requires |s1| == |s2| == 8 && i < 7 && Carried(s1, s2, i + 1, low) == (b, a) && Inv(s1, s2, i + 1, b, m, low, a)
    requires Carried(s1, s2, i, low) == (brw, sat)
    ensures Inv(s1, s2, i, brw, middle, low, sat)
  {
    var t := b + (s1[i] as int - s2[i]);
    CarriedStep(s1, s2, i, low, b, a);
    assert brw == t / 256 && sat == Saturated(a, low, t);
    middle := InvStep(s1, s2, i, b, m, low, a, t);
  }

  lemma {:induction false} CarriedEnd(s1: seq<byte>, s2: seq<byte>, low: byte, brw: int, sat: nat)
    requires |s1| == |s2| == 8 && low == (s1[7] as int - s2[7]) % 256
    requires Carried(s1, s2, 0, low) == (brw, sat)
    ensures var d := BigEndian(s1) - BigEndian(s2);
      -POW_2_64 < d < POW_2_64 && SatSubOf(d) == if sat != 0 then brw * 256 + 128 else brw * 256 + low
  {
    var middle := CarriedInv(s1, s2, 0, low, brw, sat);
    assert s1[0..] == s1 && s2[0..] == s2;
    Powers();
    BigEndianBound(s1);
    BigEndianBound(s2);
    InvEnd(BigEndian(s1) - BigEndian(s2), brw, middle, low, sat);
  }

  lemma {:induction false} InvEnd(d: int, brw: int, middle: nat, low: nat, sat: nat)
    requires Split(d, 8, brw, middle, low) && Agrees(Pow256(7), middle, low, sat) && -POW_2_64 < d < POW_2_64
    ensures SatSubOf(d) == if sat != 0 then brw * 256 + 128 else brw * 256 + low
  {
    Powers();
  }

  /** The loop of satsub64be: borrow and saturation are carried from the last byte to the first. */
  method SubtractBytes(v1: array<byte>, v2: array<byte>, ret: int) returns (brw: int, sat: nat)
    requires v1.Length == 8 && v2.Length == 8 && ret == v1[7] as int - v2[7]
    ensures (brw, sat) == Carried(v1[..], v2[..], 0, ret % 256)
  {
    ghost var s1, s2 := v1[..], v2[..];
    sat := 0;  // only its low byte is ever looked at, so only that is kept
    brw := ret / 256;
    var low: byte := ret % 256;
    var i := 6;
    while i >= 0
      invariant -1 <= i <= 6
      invariant Carried(s1, s2, i + 1, low) == (brw, sat)
    {
      CarriedStep(s1, s2, i, low, brw, sat);
      brw := brw + (v1[i] as int - v2[i]);
      sat := Saturated(sat, low, brw);
      brw := brw / 256;
      i := i - 1;
    }
  }

  /** The portable path of satsub64be. */
  method SatSub64be(v1: array<byte>, v2: array<byte>) returns (r: int)
    requires v1.Length == 8 && v2.Length == 8
    ensures r == SatSubOf(BigEndian(v1[..]) - BigEndian(v2[..]))
  {
    var ret := v1[7] as int - v2[7];
    var brw, sat := SubtractBytes(v1, v2, ret);
    var low: byte := ret % 256;
    CarriedEnd(v1[..], v2[..], low, brw, sat);
    brw := brw * 256;
    r := if sat != 0 then brw + 128 else brw + low;
  }
}
