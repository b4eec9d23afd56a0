/** Powers of two, bit lengths, and how they meet limbs. */
module Bits {
  import opened Limbs
  import opened Mul

  /** 2 to the power k. */
  function P2(k: nat): (r: nat)
    ensures r >= 1
  {
    if k == 0 then 1 else 2 * P2(k - 1)
  }

  /** Number of significant bits. */
  ghost function BitLen(v: nat): nat {
    if v == 0 then 0 else 1 + BitLen(v / 2)
  }

  /** BITS_TO_LIMBS. */
  function BitsToLimbs(i: nat): nat {
    (i + 31) / 32
  }

  /** Number of significant limbs. */
  ghost function LimbLen(v: nat): nat {
    if v == 0 then 0 else 1 + LimbLen(v / 0x1_0000_0000)
  }

  lemma {:induction false} P2Add(i: nat, j: nat)
    ensures P2(i + j) == P2(i) * P2(j)
  {
    if i == 0 {
    } else {
      P2Add(i - 1, j);
      MulAssoc(2, P2(i - 1), P2(j));
    }
  }

  lemma {:induction false} P2Monotone(i: nat, j: nat)
    requires i <= j
    ensures P2(i) <= P2(j)
    ensures i < j ==> 2 * P2(i) <= P2(j)
    decreases j
  {
    if i < j {
      P2Monotone(i, j - 1);
    }
  }

  lemma P2Of32()
    ensures P2(32) == 0x1_0000_0000
    ensures P2(31) == 0x8000_0000
    ensures P2(30) == 0x4000_0000
  {
    assert P2(4) == 16;
    assert P2(8) == 256 by { P2Add(4, 4); }
    assert P2(16) == 0x1_0000 by { P2Add(8, 8); }
    assert P2(32) == 0x1_0000_0000 by { P2Add(16, 16); }
    assert P2(32) == 2 * P2(31) && P2(31) == 2 * P2(30);
  }

  lemma {:induction false} PwIsP2(k: nat)
    ensures Pw(k) == P2(32 * k)
  {
    P2Of32();
    if k > 0 {
      PwIsP2(k - 1);
      P2Add(32, 32 * (k - 1));
    }
  }

  /** The bit length brackets the number. */
  lemma {:induction false} BitLenBounds(v: nat)
    ensures v < P2(BitLen(v))
    ensures v > 0 ==> BitLen(v) > 0 && P2(BitLen(v) - 1) <= v
  {
    if v > 0 {
      BitLenBounds(v / 2);
    }
  }

  lemma {:induction false} BitLenUnique(v: nat, k: nat)
    requires v < P2(k)
    requires k > 0 ==> P2(k - 1) <= v
    ensures BitLen(v) == k
  {
    BitLenBounds(v);
    var b := BitLen(v);
    if b < k {
      P2Monotone(b, k - 1);
    } else if k < b {
      P2Monotone(k, b - 1);
    }
  }

  lemma {:induction false} LimbLenBounds(v: nat)
    ensures v < Pw(LimbLen(v))
    ensures v > 0 ==> LimbLen(v) > 0 && Pw(LimbLen(v) - 1) <= v
  {
    if v > 0 {
      LimbLenBounds(v / 0x1_0000_0000);
    }
  }

  lemma {:induction false} LimbLenUnique(v: nat, k: nat)
    requires v < Pw(k)
    requires k > 0 ==> Pw(k - 1) <= v
    ensures LimbLen(v) == k
  {
    LimbLenBounds(v);
    var b := LimbLen(v);
    if b < k {
      PwMonotone(b, k - 1);
    } else if k < b {
      PwMonotone(k, b - 1);
    }
  }

  /** A split at bit t of one limb: what moves up and what stays. */
  lemma HalfLimbs(t: nat)
    requires 0 < t < 32
    ensures P2(t) * P2(32 - t) == 0x1_0000_0000
    ensures 2 <= P2(t) && 2 <= P2(32 - t)
    ensures P2(t) < 0x1_0000_0000 && P2(32 - t) < 0x1_0000_0000
  {
    P2Of32();
    P2Add(t, 32 - t);
    P2Monotone(1, t);
    P2Monotone(1, 32 - t);
    P2Monotone(t, 31);
    P2Monotone(32 - t, 31);
  }

  lemma {:induction false} LimbLenBits(v: nat)
    ensures LimbLen(v) == BitsToLimbs(BitLen(v))
  {
    BitLenBounds(v);
    var b := BitLen(v);
    var k := (b + 31) / 32;
    P2Monotone(b, 32 * k);
    PwIsP2(k);
    if k > 0 {
      PwIsP2(k - 1);
      P2Monotone(32 * (k - 1), b - 1);
    }
    LimbLenUnique(v, k);
  }

  lemma {:induction false} BitLenShift(v: nat, k: nat)
    requires v > 0
    ensures P2(k) * v > 0 && BitLen(P2(k) * v) == BitLen(v) + k
  {
    BitLenBounds(v);
    MulPos(P2(k), v);
    P2Add(k, BitLen(v));
    P2Add(k, BitLen(v) - 1);
    MulLt(v, P2(BitLen(v)), P2(k));
    MulLe(P2(BitLen(v) - 1), v, P2(k));
    BitLenUnique(P2(k) * v, BitLen(v) + k);
  }

  lemma {:induction false} BitLenMonotone(x: nat, y: nat)
    requires x <= y
    ensures BitLen(x) <= BitLen(y)
  {
    if x > 0 {
      BitLenMonotone(x / 2, y / 2);
    }
  }
}
