/** Bytes, big-endian integers and the bit operations of C on non-negative integers. */
module Bits {

  type byte = x: int | 0 <= x < 256

  function Pow2(k: nat): (p: nat)
    ensures p >= 1
  {
    if k == 0 then 1 else 2 * Pow2(k - 1)
  }

  predicate Bit(n: nat, k: nat) {
    if k == 0 then n % 2 == 1 else Bit(n / 2, k - 1)
  }

  /** `a | b` */
  function Or(a: nat, b: nat): nat {
    if a == 0 && b == 0 then 0
    else 2 * Or(a / 2, b / 2) + (if a % 2 == 1 || b % 2 == 1 then 1 else 0)
  }

  /** `a << k`, before any truncation to a machine width */
  function Shl(a: nat, k: nat): nat {
    if k == 0 then a else 2 * Shl(a, k - 1)
  }

  /** `a >> k` */
  function Shr(a: nat, k: nat): nat {
    if k == 0 then a else Shr(a / 2, k - 1)
  }

  /** The low `w` bits of `a`: what is left of it in a register of `w` bits. */
  function Low(a: nat, w: nat): nat {
    if w == 0 then 0 else 2 * Low(a / 2, w - 1) + a % 2
  }

  lemma {:induction false} BitOr(a: nat, b: nat, k: nat)
    ensures Bit(Or(a, b), k) <==> Bit(a, k) || Bit(b, k)
  {
    if a == 0 && b == 0 {
      BitZero(k);
    } else {
      OrHalves(a, b);
      if k > 0 {
        BitOr(a / 2, b / 2, k - 1);
      }
    }
  }

  lemma {:induction false} OrHalves(a: nat, b: nat)
    ensures Or(a, b) / 2 == Or(a / 2, b / 2)
    ensures Or(a, b) % 2 == 1 <==> a % 2 == 1 || b % 2 == 1
  {
    if a == 0 && b == 0 {
      assert Or(0, 0) == 0;
    }
  }

  lemma {:induction false} BitZero(k: nat)
    ensures !Bit(0, k)
  {
    if k > 0 {
      BitZero(k - 1);
    }
  }

  lemma {:induction false} BitShl(a: nat, s: nat, k: nat)
    ensures Bit(Shl(a, s), k) <==> k >= s && Bit(a, k - s)
  {
    if s > 0 && k > 0 {
      assert Shl(a, s) / 2 == Shl(a, s - 1);
      BitShl(a, s - 1, k - 1);
    }
  }

  lemma {:induction false} ShlIsTimes(a: nat, k: nat)
    ensures Shl(a, k) == a * Pow2(k)
  {
    if k > 0 {
      ShlIsTimes(a, k - 1);
    }
  }

  lemma {:induction false} SmallPowers()
    ensures Pow2(0) == 1 && Pow2(1) == 2 && Pow2(2) == 4 && Pow2(3) == 8 && Pow2(4) == 16
    ensures Pow2(5) == 32 && Pow2(6) == 64 && Pow2(7) == 128 && Pow2(8) == 256
  {
  }

  lemma {:induction false} BitShr(a: nat, s: nat, k: nat)
    ensures Bit(Shr(a, s), k) <==> Bit(a, k + s)
  {
    if s > 0 {
      BitShr(a / 2, s - 1, k);
    }
  }

  lemma {:induction false} BitLow(a: nat, w: nat, k: nat)
    ensures Bit(Low(a, w), k) <==> k < w && Bit(a, k)
  {
    if w == 0 {
      BitZero(k);
    } else if k > 0 {
      assert Low(a, w) / 2 == Low(a / 2, w - 1);
      BitLow(a / 2, w - 1, k - 1);
    }
  }

  lemma {:induction false} LowIsMod(a: nat, w: nat)
    ensures Low(a, w) == a % Pow2(w)
    ensures a < Pow2(w) ==> Low(a, w) == a
  {
    if w > 0 {
      LowIsMod(a / 2, w - 1);
      DoubledMod(a, Pow2(w - 1));
    }
  }

  lemma {:induction false} DoubledMod(a: nat, p: nat)
    requires p > 0
    ensures a % (2 * p) == 2 * (a / 2 % p) + a % 2
    ensures a < 2 * p ==> a / 2 < p
  {
    var q, r := a / 2 / p, a / 2 % p;
    Distribute(q, p);
    ModUnique(a, 2 * p, q, 2 * r + a % 2);
  }

  lemma {:induction false} Distribute(q: int, p: int)
    ensures q * (2 * p) == 2 * (q * p)
  {
  }

  lemma {:induction false} ModUnique(a: int, m: int, q: int, r: int)
    requires m > 0 && a == q * m + r && 0 <= r < m
    ensures a % m == r && a / m == q
  {
    var d := a / m - q;
    assert d * m == r - a % m;
  }

  lemma {:induction false} BitsBelow(a: nat, w: nat, k: nat)
    requires a < Pow2(w) && Bit(a, k)
    ensures k < w
  {
    if w == 0 {
      BitZero(k);
    } else if k > 0 {
      BitsBelow(a / 2, w - 1, k - 1);
    }
  }

  /** Two numbers below 2^w with the same w bits are equal. */
  lemma {:induction false} BitsDetermine(a: nat, b: nat, w: nat)
    requires a < Pow2(w) && b < Pow2(w)
    requires forall k: nat | k < w :: Bit(a, k) <==> Bit(b, k)
    ensures a == b
  {
    if w > 0 {
      assert Bit(a, 0) <==> Bit(b, 0);
      forall k: nat | k < w - 1
        ensures Bit(a / 2, k) <==> Bit(b / 2, k)
      {
        assert Bit(a, k + 1) <==> Bit(b, k + 1);
      }
      BitsDetermine(a / 2, b / 2, w - 1);
    }
  }

  lemma {:induction false} OrBound(a: nat, b: nat, w: nat)
    requires a < Pow2(w) && b < Pow2(w)
    ensures Or(a, b) < Pow2(w)
  {
    if w > 0 {
      OrBound(a / 2, b / 2, w - 1);
    }
  }

  lemma {:induction false} LowBound(a: nat, w: nat)
    ensures Low(a, w) < Pow2(w)
  {
    if w > 0 {
      LowBound(a / 2, w - 1);
    }
  }

  /** `2^r - 1` has exactly the bits below `r` set. */
  lemma {:induction false} BitsOfOnes(r: nat, k: nat)
    ensures Bit(Pow2(r) - 1, k) <==> k < r
  {
    if r == 0 {
      BitZero(k);
    } else if k > 0 {
      assert (Pow2(r) - 1) / 2 == Pow2(r - 1) - 1;
      BitsOfOnes(r - 1, k - 1);
    }
  }

  lemma {:induction false} BitOfPow2(s: nat, k: nat)
    ensures Bit(Shl(1, s), k) <==> k == s
  {
    BitShl(1, s, k);
    if k > s {
      BitZero(k - s - 1);
    }
  }

  /** The number a big-endian byte string stands for. */
  function BigEndian(s: seq<byte>): nat {
    if s == [] then 0 else BigEndian(s[..|s| - 1]) * 256 + s[|s| - 1]
  }
}
