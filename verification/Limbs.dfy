/** Little-endian limb sequences in base 2^32 and the natural numbers they denote. */
module Limbs {
  import opened Mul

  /** One t_uint of the 32-bit target. */
  type Limb = x: int | 0 <= x < 0x1_0000_0000

  /** 2^32 to the power k. */
  ghost function Pw(k: nat): (r: nat)
    ensures r >= 1
  {
    if k == 0 then 1 else 0x1_0000_0000 * Pw(k - 1)
  }

  /** The number a limb sequence denotes, least significant limb first. */
  ghost function Val(p: seq<Limb>): nat {
    if p == [] then 0 else p[0] + 0x1_0000_0000 * Val(p[1..])
  }

  lemma {:induction false} PwAdd(i: nat, j: nat)
    ensures Pw(i + j) == Pw(i) * Pw(j)
  {
    if i == 0 {
    } else {
      PwAdd(i - 1, j);
      MulAssoc(0x1_0000_0000, Pw(i - 1), Pw(j));
    }
  }

  lemma {:induction false} PwMonotone(i: nat, j: nat)
    requires i <= j
    ensures Pw(i) <= Pw(j)
    ensures i < j ==> 0x1_0000_0000 * Pw(i) <= Pw(j)
    decreases j
  {
    if i < j {
      PwMonotone(i, j - 1);
    }
  }

  /** A number is its low k limbs plus 2^(32k) times its remaining limbs. */
  lemma {:induction false} ValSplit(p: seq<Limb>, k: nat)
    requires k <= |p|
    ensures Val(p) == Val(p[..k]) + Pw(k) * Val(p[k..])
    decreases k
  {
    if k == 0 {
      assert p[0..] == p;
    } else {
      ValSplit(p[1..], k - 1);
      assert p[1..][..k - 1] == p[..k][1..];
      assert p[1..][k - 1..] == p[k..];
      MulAssoc(0x1_0000_0000, Pw(k - 1), Val(p[k..]));
    }
  }

  lemma {:induction false} ValBound(p: seq<Limb>)
    ensures Val(p) < Pw(|p|)
  {
    if p != [] {
      ValBound(p[1..]);
    }
  }

  /** Appending one limb on top. */
  lemma {:induction false} ValSnoc(p: seq<Limb>, v: Limb)
    ensures Val(p + [v]) == Val(p) + v * Pw(|p|)
  {
    ValSplit(p + [v], |p|);
    assert (p + [v])[..|p|] == p;
    assert (p + [v])[|p|..] == [v];
    assert Val([v]) == v + 0x1_0000_0000 * Val([]);
  }

  /** Writing limb k changes the number by the difference at that weight. */
  lemma {:induction false} ValUpdate(p: seq<Limb>, k: nat, v: Limb)
    requires k < |p|
    ensures Val(p[k := v]) == Val(p) + (v - p[k]) * Pw(k)
    decreases k
  {
    var q := p[k := v];
    if k == 0 {
      assert q[1..] == p[1..];
    } else {
      assert q[1..] == p[1..][k - 1 := v];
      ValUpdate(p[1..], k - 1, v);
      MulSwap(0x1_0000_0000, v - p[k], Pw(k - 1));
    }
  }

  /** A prefix one limb longer. */
  lemma {:induction false} ValPrefix(p: seq<Limb>, k: nat)
    requires k < |p|
    ensures Val(p[..k + 1]) == Val(p[..k]) + p[k] * Pw(k)
  {
    assert p[..k + 1] == p[..k] + [p[k]];
    ValSnoc(p[..k], p[k]);
  }

  lemma {:induction false} ValZeros(p: seq<Limb>)
    requires forall i :: 0 <= i < |p| ==> p[i] == 0
    ensures Val(p) == 0
  {
    if p != [] {
      ValZeros(p[1..]);
    }
  }

  /** Zero limbs above position k do not count. */
  lemma {:induction false} ValTrim(p: seq<Limb>, k: nat)
    requires k <= |p|
    requires forall i :: k <= i < |p| ==> p[i] == 0
    ensures Val(p) == Val(p[..k])
  {
    ValSplit(p, k);
    ValZeros(p[k..]);
  }

  /** A number whose limb k is nonzero is at least 2^(32k). */
  lemma {:induction false} ValTop(p: seq<Limb>, k: nat)
    requires k < |p| && p[k] != 0
    ensures Val(p) >= p[k] * Pw(k) >= Pw(k)
  {
    ValSplit(p, k + 1);
    ValPrefix(p, k);
    MulNonNeg(Pw(k + 1), Val(p[k + 1..]));
    MulPos(p[k], Pw(k));
  }

  /** A number below 2^(32k) has only zeros from limb k on. */
  lemma {:induction false} ValHighZero(p: seq<Limb>, k: nat)
    requires Val(p) < Pw(k)
    ensures forall i :: k <= i < |p| ==> p[i] == 0
  {
    forall i | k <= i < |p| ensures p[i] == 0 {
      if p[i] != 0 {
        ValTop(p, i);
        PwMonotone(k, i);
      }
    }
  }

  /** One carry step at limb k: what is written and what is carried out balance what was there,
      what was carried in and what is added.  A borrow is a negative carry. */
  lemma {:induction false} CarryStep(p: seq<Limb>, k: nat, v: Limb, cin: int, cout: int, add: int)
    requires k < |p|
    requires v + cout * 0x1_0000_0000 == p[k] + cin + add
    ensures Val(p[k := v]) + cout * Pw(k + 1) == Val(p) + cin * Pw(k) + add * Pw(k)
  {
    ValUpdate(p, k, v);
    MulAssoc(cout, 0x1_0000_0000, Pw(k));
    MulAdd(v - p[k], cout * 0x1_0000_0000, Pw(k));
    MulAdd(cin, add, Pw(k));
  }

  /** Equal length and equal value mean equal limbs. */
  lemma {:induction false} ValInjective(p: seq<Limb>, q: seq<Limb>)
    requires |p| == |q| && Val(p) == Val(q)
    ensures p == q
  {
    if p != [] {
      assert p[0] == q[0] && Val(p[1..]) == Val(q[1..]);
      ValInjective(p[1..], q[1..]);
      assert p == [p[0]] + p[1..];
      assert q == [q[0]] + q[1..];
    }
  }

  function Zeros(n: nat): (z: seq<Limb>)
    ensures |z| == n && forall i :: 0 <= i < n ==> z[i] == 0
  {
    seq(n, _ => 0)
  }

  /** Zero limbs on top do not change the number. */
  lemma {:induction false} ValPad(p: seq<Limb>, n: nat)
    ensures Val(p + Zeros(n)) == Val(p)
  {
    ValTrim(p + Zeros(n), |p|);
    assert (p + Zeros(n))[..|p|] == p;
  }

  /** A single limb is its own value. */
  lemma ValOne(p: seq<Limb>)
    requires |p| == 1
    ensures Val(p) == p[0]
  {
    assert p[1..] == [];
  }

  /** A borrow at position i that balances a subtraction which fits in lim limbs is below lim. */
  lemma BorrowStays(d: seq<Limb>, d0: seq<Limb>, lim: nat, i: nat, c: int, sub: int)
    requires lim <= |d| == |d0| && d[lim..] == d0[lim..]
    requires 0 <= sub <= Val(d0[..lim])
    requires Val(d) - c * Pw(i) == Val(d0) - sub
    requires c >= 1
    ensures i < lim
  {
    ValSplit(d, lim);
    ValSplit(d0, lim);
    ValBound(d[..lim]);
    MulLe(1, c, Pw(i));
    if i >= lim {
      PwMonotone(lim, i);
    }
  }

  /** A carry at position k that balances an addition which fits in lim limbs is below lim. */
  lemma CarryStays(d: seq<Limb>, d0: seq<Limb>, lim: nat, k: nat, c: int, add: int)
    requires lim <= |d| == |d0| && d[lim..] == d0[lim..]
    requires Val(d0[..lim]) + add < Pw(lim)
    requires Val(d) + c * Pw(k) == Val(d0) + add
    requires c >= 1
    ensures k < lim
  {
    ValSplit(d, lim);
    ValSplit(d0, lim);
    MulLe(1, c, Pw(k));
    if k >= lim {
      PwMonotone(lim, k);
    }
  }
}
