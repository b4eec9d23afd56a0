/** Bit lengths, trailing zeros and shifts of multi-precision integers. */
module Shifts {
  import opened Limbs
  import opened Bits
  import opened Mul
  import opened BigNum

  /** Number of trailing zero bits; zero has none. */
  ghost function Ctz(v: nat): nat {
    if v == 0 || v % 2 == 1 then 0 else 1 + Ctz(v / 2)
  }

  lemma {:induction false} CtzSplits(v: nat)
    ensures v > 0 ==> exists m: nat :: OddPart(v, m, Ctz(v))
  {
    if v == 0 {
    } else if v % 2 == 1 {
      assert Ctz(v) == 0 && OddPart(v, v, 0);
    } else {
      CtzSplits(v / 2);
      var m: nat :| OddPart(v / 2, m, Ctz(v / 2));
      MulAssoc(2, P2(Ctz(v / 2)), m);
      assert OddPart(v, m, Ctz(v));
    }
  }

  /** v is an odd number m shifted up by k. */
  ghost predicate OddPart(v: nat, m: nat, k: nat) {
    m % 2 == 1 && v == P2(k) * m
  }

  lemma {:induction false} CtzUnique(v: nat, m: nat, k: nat)
    requires OddPart(v, m, k)
    ensures Ctz(v) == k && v > 0
  {
    MulPos(P2(k), m);
    if k > 0 {
      MulAssoc(2, P2(k - 1), m);
      MulPos(P2(k - 1), m);
      assert v / 2 == P2(k - 1) * m;
      CtzUnique(v / 2, m, k - 1);
    }
  }

  /** Bit j of a limb below 2^(j+1) decides which half it is in. */
  lemma BitHalf(x: nat, j: nat)
    requires x < 2 * P2(j)
    ensures (x / P2(j)) % 2 == (if x < P2(j) then 0 else 1)
  {
    if x < P2(j) {
      DivUnique(x, P2(j), 0, x);
    } else {
      DivUnique(x, P2(j), 1, x - P2(j));
    }
  }

  /** mpi_msb. */
  method Msb(X: Mpi) returns (r: nat)
    requires |X.p| >= 1
    ensures r == BitLen(X.Abs())
  {
    var i := |X.p| - 1;
    while i > 0 && X.p[i] == 0
      invariant 0 <= i < |X.p|
      invariant forall k :: i < k < |X.p| ==> X.p[k] == 0
    {
      i := i - 1;
    }
    var j := 32;
    P2Of32();
    while j > 0 && (X.p[i] / P2(j - 1)) % 2 == 0
      invariant 0 <= j <= 32
      invariant X.p[i] < P2(j)
    {
      BitHalf(X.p[i], j - 1);
      j := j - 1;
    }
    if j > 0 {
      BitHalf(X.p[i], j - 1);
    }
    MsbIs(X.p, i, j);
    r := i * 32 + j;
  }

  lemma MsbIs(p: seq<Limb>, i: nat, j: nat)
    requires i < |p| && forall k :: i < k < |p| ==> p[k] == 0
    requires p[i] < P2(j) && (j > 0 ==> P2(j - 1) <= p[i])
    requires i > 0 ==> p[i] != 0
    ensures BitLen(Val(p)) == i * 32 + j
  {
    ValTrim(p, i + 1);
    ValPrefix(p, i);
    ValBound(p[..i]);
    PwIsP2(i);
    MulLe(p[i] as int + 1, P2(j), Pw(i));
    MulAdd(p[i], 1, Pw(i));
    P2Add(j, 32 * i);
    if j > 0 {
      P2Add(j - 1, 32 * i);
      MulLe(P2(j - 1), p[i], Pw(i));
      BitLenUnique(Val(p), 32 * i + j);
    }
  }

  /** mpi_lsb. */
  method Lsb(X: Mpi) returns (count: nat)
    ensures count == Ctz(X.Abs())
  {
    var i := 0;
    P2Of32();
    while i < |X.p|
      invariant 0 <= i <= |X.p|
      invariant forall k :: 0 <= k < i ==> X.p[k] == 0
    {
      var j := 0;
      while j < 32
        invariant 0 <= j <= 32
        invariant X.p[i] % P2(j) == 0
      {
        if (X.p[i] / P2(j)) % 2 != 0 {
          LsbIs(X.p, i, j);
          return i * 32 + j;
        }
        EvenQuotient(X.p[i], j);
        j := j + 1;
      }
      i := i + 1;
    }
    ValZeros(X.p);
    return 0;
  }

  lemma EvenQuotient(x: nat, j: nat)
    requires x % P2(j) == 0 && (x / P2(j)) % 2 == 0
    ensures x % P2(j + 1) == 0
  {
    var q := x / P2(j);
    DivDef(x, P2(j));
    MulAssoc(q / 2, 2, P2(j));
    DivUnique(x, P2(j + 1), q / 2, 0);
  }

  lemma LsbIs(p: seq<Limb>, i: nat, j: nat)
    requires i < |p| && j < 32 && forall k :: 0 <= k < i ==> p[k] == 0
    requires p[i] % P2(j) == 0 && (p[i] / P2(j)) % 2 == 1
    ensures Ctz(Val(p)) == i * 32 + j
  {
    ValSplit(p, i);
    ValZeros(p[..i]);
    var rest := Val(p[i..][1..]);
    var m := p[i] / P2(j) + 2 * (P2(31 - j) * rest);
    LowLimb(p[i], rest, j);
    TwosTogether(i, j, m);
    CtzUnique(Val(p), m, 32 * i + j);
  }

  lemma TwosTogether(i: nat, j: nat, m: int)
    ensures Pw(i) * (P2(j) * m) == P2(32 * i + j) * m
  {
    PwIsP2(i);
    P2Add(32 * i, j);
    MulAssoc(P2(32 * i), P2(j), m);
  }

  lemma LowLimb(x: Limb, rest: nat, j: nat)
    requires j < 32 && x % P2(j) == 0 && (x / P2(j)) % 2 == 1
    ensures var m := x / P2(j) + 2 * (P2(31 - j) * rest);
      m >= 0 && m % 2 == 1 && x + 0x1_0000_0000 * rest == P2(j) * m
  {
    var q := x / P2(j);
    var h := P2(31 - j) * rest;
    DivDef(x, P2(j));
    HighPart(j, rest);
    MulNonNeg(P2(31 - j), rest);
    MulAdd(q, 2 * h, P2(j));
  }

  lemma HighPart(j: nat, rest: nat)
    requires j < 32
    ensures 0x1_0000_0000 * rest == P2(j) * (2 * (P2(31 - j) * rest))
  {
    P2Of32();
    P2Add(j, 32 - j);
    MulAssoc(2, P2(31 - j), rest);
    MulAssoc(P2(j), P2(32 - j), rest);
  }

  /** One limb of a left shift by t bits: nothing is lost between what stays and what moves up. */
  lemma LimbShiftL(m: Limb, t: nat, r0: nat)
    requires 0 < t < 32 && r0 < P2(t)
    ensures var v, r1 := (m * P2(t)) % 0x1_0000_0000 + r0, m / P2(32 - t);
      v < 0x1_0000_0000 && 0 <= r1 < P2(t) && v + r1 * 0x1_0000_0000 == m * P2(t) + r0
  {
    HalfLimbs(t);
    var h := P2(32 - t);
    var r1, lo := m / h, m % h;
    DivDef(m, h);
    MulAdd(r1 * h, lo, P2(t));
    MulAssoc(r1, h, P2(t));
    MulLe(lo, h - 1, P2(t));
    MulSub(h, 1, P2(t));
    MulNonNeg(lo, P2(t));
    DivUnique(m * P2(t), 0x1_0000_0000, r1, lo * P2(t));
    if r1 >= P2(t) {
      MulLe(P2(t), r1, h);
    }
  }

  /** What the bit loop of mpi_shift_l keeps. */
  ghost predicate ShiftingL(p: seq<Limb>, mid: seq<Limb>, i: nat, t: nat, r0: nat) {
    i <= |p| == |mid| && p[i..] == mid[i..] && r0 < P2(t) &&
    Val(p[..i]) + r0 * Pw(i) == P2(t) * Val(mid[..i])
  }

  lemma ShiftLStep(p: seq<Limb>, mid: seq<Limb>, i: nat, t: nat, r0: nat, v: Limb, r1: nat)
    requires i < |p| && ShiftingL(p, mid, i, t, r0) && r1 < P2(t)
    requires v + r1 * 0x1_0000_0000 == mid[i] * P2(t) + r0
    ensures ShiftingL(p[i := v], mid, i + 1, t, r1)
  {
    var q := p[i := v];
    assert q[..i] == p[..i];
    ValPrefix(q, i);
    ValPrefix(mid, i);
    var w := Pw(i);
    MulAdd(Val(mid[..i]), mid[i] * w, P2(t));
    MulAssoc(P2(t), mid[i], w);
    MulAssoc(r1, 0x1_0000_0000, w);
    MulAdd(v, r1 * 0x1_0000_0000, w);
    MulAdd(mid[i] * P2(t), r0, w);
  }

  /** The bit loop of mpi_shift_l. */
  method ShiftLBits(X: Mpi, v0: nat, t: nat)
    requires 0 < t < 32 && v0 <= |X.p|
    requires forall k :: 0 <= k < v0 ==> X.p[k] == 0
    requires P2(t) * X.Abs() < Pw(|X.p|)
    modifies X`p
    ensures |X.p| == old(|X.p|) && X.Abs() == P2(t) * old(X.Abs())
  {
    ghost var mid := X.p;
    var r0: Limb := 0;
    var i := v0;
    ValZeros(mid[..v0]);
    while i < |X.p|
      invariant v0 <= i <= |X.p| == |mid|
      invariant ShiftingL(X.p, mid, i, t, r0)
    {
      ghost var p := X.p;
      LimbShiftL(X.p[i], t, r0);
      HalfLimbs(t);
      var r1: Limb := X.p[i] / P2(32 - t);
      X.p := X.p[i := (X.p[i] * P2(t)) % 0x1_0000_0000 + r0];
      ShiftLStep(p, mid, i, t, r0, X.p[i], r1);
      r0 := r1;
      i := i + 1;
    }
    NoCarryOut(X.p, mid, t, r0);
  }

  lemma NoCarryOut(p: seq<Limb>, mid: seq<Limb>, t: nat, r0: nat)
    requires ShiftingL(p, mid, |p|, t, r0)
    requires P2(t) * Val(mid) < Pw(|mid|)
    ensures Val(p) == P2(t) * Val(mid)
  {
    assert p[..|p|] == p && mid[..|mid|] == mid;
    NothingCarried(Val(p), r0, Pw(|p|), P2(t) * Val(mid));
  }

  lemma NothingCarried(v: int, r: int, w: int, x: int)
    requires v >= 0 && r >= 0 && w > 0 && v + r * w == x && x < w
    ensures v == x
  {
    if r > 0 {
      MulLe(1, r, w);
    }
  }

  /** The limb loops of mpi_shift_l. */
  method MoveUp(X: Mpi, v0: nat)
    requires v0 <= |X.p|
    modifies X`p
    ensures |X.p| == old(|X.p|) && X.p == Zeros(v0) + old(X.p)[..|X.p| - v0]
  {
    ghost var x0 := X.p;
    var i := |X.p|;
    while i > v0
      invariant v0 <= i <= |X.p| == |x0|
      invariant X.p[..i] == x0[..i] && X.p[i..] == x0[i - v0..|x0| - v0]
    {
      X.p := X.p[i - 1 := X.p[i - v0 - 1]];
      i := i - 1;
    }
    while i > 0
      invariant 0 <= i <= v0 <= |X.p| == |x0|
      invariant X.p[v0..] == x0[..|x0| - v0]
      invariant forall k :: i <= k < v0 ==> X.p[k] == 0
    {
      X.p := X.p[i - 1 := 0];
      i := i - 1;
    }
    assert X.p == X.p[..v0] + X.p[v0..];
    assert X.p[..v0] == Zeros(v0);
  }

  /** The room mpi_shift_l makes is enough: no bit is lost. */
  lemma ShiftLRoom(v: nat, n: nat, v0: nat, t: nat)
    requires n * 32 >= BitLen(v) + v0 * 32 + t
    ensures v0 <= n && v < Pw(n - v0)
    ensures P2(t) * (Pw(v0) * v) < Pw(n)
  {
    BitLenBounds(v);
    var b := BitLen(v);
    P2Monotone(b, 32 * (n - v0));
    PwIsP2(n - v0);
    PwIsP2(n);
    PwIsP2(v0);
    P2Monotone(t + 32 * v0 + b, 32 * n);
    P2Add(t + 32 * v0, b);
    P2Add(t, 32 * v0);
    MulAssoc(P2(t), Pw(v0), v);
    MulLt(v, P2(b), P2(t + 32 * v0));
  }

  lemma MovedUp(x0: seq<Limb>, v0: nat)
    requires v0 <= |x0| && Val(x0) < Pw(|x0| - v0)
    ensures Val(Zeros(v0) + x0[..|x0| - v0]) == Pw(v0) * Val(x0)
  {
    var q := Zeros(v0) + x0[..|x0| - v0];
    ValLow(x0, |x0| - v0);
    ValSplit(q, v0);
    ValZeros(q[..v0]);
    assert q[v0..] == x0[..|x0| - v0];
  }

  /** Both loops of mpi_shift_l, once there is room. */
  method ShiftLLoops(X: Mpi, v0: nat, t1: nat)
    requires t1 < 32 && v0 <= |X.p| && X.Abs() < Pw(|X.p| - v0)
    requires P2(t1) * (Pw(v0) * X.Abs()) < Pw(|X.p|)
    modifies X`p
    ensures |X.p| == old(|X.p|) && X.Abs() == P2(t1) * (Pw(v0) * old(X.Abs()))
  {
    if v0 > 0 {
      MovedUp(X.p, v0);
      MoveUp(X, v0);
    }
    if t1 > 0 {
      ShiftLBits(X, v0, t1);
    }
  }

  /** mpi_shift_l. */
  method ShiftL(X: Mpi, count: nat)
    requires |X.p| >= 1
    modifies X`p
    ensures X.Abs() == P2(count) * old(X.Abs())
    ensures |X.p| == Max(old(|X.p|), BitsToLimbs(BitLen(old(X.Abs())) + count))
  {
    var v0 := count / 32;
    var t1 := count % 32;
    var i := Msb(X);
    i := i + count;
    if |X.p| * 32 < i {
      Grow(X, BitsToLimbs(i));
    }
    ghost var v := X.Abs();
    ShiftLRoom(v, |X.p|, v0, t1);
    ShiftLLoops(X, v0, t1);
    PwIsP2(v0);
    P2Add(t1, 32 * v0);
    MulAssoc(P2(t1), Pw(v0), v);
  }

  /** The limb loops of mpi_shift_r. */
  method MoveDown(X: Mpi, v0: nat)
    requires v0 <= |X.p|
    modifies X`p
    ensures |X.p| == old(|X.p|) && X.p == old(X.p)[v0..] + Zeros(v0)
  {
    ghost var x0 := X.p;
    var i := 0;
    while i < |X.p| - v0
      invariant 0 <= i <= |X.p| - v0 && |X.p| == |x0|
      invariant X.p[..i] == x0[v0..v0 + i] && X.p[i..] == x0[i..]
    {
      assert x0[v0..v0 + i + 1] == x0[v0..v0 + i] + [x0[v0 + i]];
      X.p := X.p[i := X.p[i + v0]];
      i := i + 1;
    }
    while i < |X.p|
      invariant |X.p| - v0 <= i <= |X.p| == |x0|
      invariant X.p[..|x0| - v0] == x0[v0..]
      invariant forall k :: |x0| - v0 <= k < i ==> X.p[k] == 0
    {
      X.p := X.p[i := 0];
      i := i + 1;
    }
    assert X.p == X.p[..|x0| - v0] + X.p[|x0| - v0..];
    assert X.p[|x0| - v0..] == Zeros(v0);
  }

  /** One limb of a right shift by t bits: rem are the bits that fell out of the limb above. */
  lemma LimbShiftR(m: Limb, t: nat, rem: nat)
    requires 0 < t < 32 && rem < P2(t)
    ensures var v := m / P2(t) + rem * P2(32 - t);
      0 <= v < 0x1_0000_0000 && P2(t) * v + m % P2(t) == m + rem * 0x1_0000_0000
  {
    HalfLimbs(t);
    var h := P2(32 - t);
    QuotientFits(m, P2(t), h);
    DivDef(m, P2(t));
    MulAdd(m / P2(t), rem * h, P2(t));
    MulSwap(P2(t), rem, h);
    MulNonNeg(rem, h);
    MulLe(rem, P2(t) - 1, h);
    MulSub(P2(t), 1, h);
  }

  lemma QuotientFits(m: nat, d: nat, h: nat)
    requires d > 0 && m < d * h
    ensures 0 <= m / d < h
  {
    DivDef(m, d);
    if m / d >= h {
      MulLe(h, m / d, d);
    }
  }

  /** The bits that mpi_shift_r carries down from one limb to the next: (m << (32 - t)) mod 2^32. */
  lemma CarriedDown(m: Limb, t: nat)
    requires 0 < t < 32
    ensures (m * P2(32 - t)) % 0x1_0000_0000 == (m % P2(t)) * P2(32 - t)
  {
    HalfLimbs(t);
    DivDef(m, P2(t));
    var q, h := m / P2(t), P2(32 - t);
    var low := m % P2(t);
    MulAdd(q * P2(t), low, h);
    MulAssoc(q, P2(t), h);
    MulNonNeg(low, h);
    MulLe(low, P2(t) - 1, h);
    MulSub(P2(t), 1, h);
    DivUnique(m * h, 0x1_0000_0000, q, low * h);
  }

  /** What the bit loop of mpi_shift_r keeps, from the top limb down. */
  ghost predicate ShiftingR(p: seq<Limb>, mid: seq<Limb>, i: nat, t: nat, rem: nat) {
    i <= |p| == |mid| && p[..i] == mid[..i] && rem < P2(t) &&
    P2(t) * Val(p[i..]) + rem == Val(mid[i..])
  }

  lemma ShiftRStep(p: seq<Limb>, mid: seq<Limb>, i: nat, t: nat, rem: nat, v: Limb, low: nat)
    requires 0 < i <= |p| && ShiftingR(p, mid, i, t, rem) && low < P2(t)
    requires P2(t) * v + low == mid[i - 1] + rem * 0x1_0000_0000
    ensures ShiftingR(p[i - 1 := v], mid, i - 1, t, low)
  {
    var q := p[i - 1 := v];
    assert q[i - 1..] == [v] + p[i..];
    assert mid[i - 1..] == [mid[i - 1]] + mid[i..];
    var w := Val(p[i..]);
    MulAdd(v, 0x1_0000_0000 * w, P2(t));
    MulSwap(P2(t), 0x1_0000_0000, w);
  }

  /** One limb of the bit loop of mpi_shift_r. */
  method ShiftROne(X: Mpi, i: nat, t: nat, r0: Limb, ghost rem: nat) returns (r1: Limb)
    requires i < |X.p| && 0 < t < 32
    requires rem < P2(t) && r0 == rem * P2(32 - t)
    modifies X`p
    ensures |X.p| == old(|X.p|) && X.p == old(X.p)[i := X.p[i]]
    ensures r1 == (old(X.p[i]) % P2(t)) * P2(32 - t)
    ensures P2(t) * X.p[i] + old(X.p[i]) % P2(t) == old(X.p[i]) + rem * 0x1_0000_0000
  {
    LimbShiftR(X.p[i], t, rem);
    CarriedDown(X.p[i], t);
    r1 := (X.p[i] * P2(32 - t)) % 0x1_0000_0000;
    X.p := X.p[i := X.p[i] / P2(t) + r0];
  }

  /** The bit loop of mpi_shift_r. */
  method ShiftRBits(X: Mpi, t: nat)
    requires 0 < t < 32
    modifies X`p
    ensures |X.p| == old(|X.p|) && X.Abs() == old(X.Abs()) / P2(t)
  {
    ghost var mid := X.p;
    var r0: Limb := 0;
    ghost var rem: nat := 0;
    var i := |X.p|;
    while i > 0
      invariant 0 <= i <= |X.p| == |mid|
      invariant ShiftingR(X.p, mid, i, t, rem)
      invariant r0 == rem * P2(32 - t)
    {
      ghost var p := X.p;
      r0 := ShiftROne(X, i - 1, t, r0, rem);
      ShiftRStep(p, mid, i, t, rem, X.p[i - 1], p[i - 1] % P2(t));
      rem := p[i - 1] % P2(t);
      i := i - 1;
    }
    ShiftedR(X.p, mid, t, rem);
  }

  lemma ShiftedR(p: seq<Limb>, mid: seq<Limb>, t: nat, rem: nat)
    requires ShiftingR(p, mid, 0, t, rem)
    ensures Val(p) == Val(mid) / P2(t)
  {
    assert p[0..] == p && mid[0..] == mid;
    DivUnique(Val(mid), P2(t), Val(p), rem);
  }

  /** Both loops of mpi_shift_r. */
  method ShiftRLoops(X: Mpi, v0: nat, v1: nat)
    requires v0 <= |X.p| && v1 < 32
    modifies X`p
    ensures |X.p| == old(|X.p|)
    ensures X.Abs() == Val(old(X.p)[v0..]) / P2(v1)
  {
    if v0 > 0 {
      ValPad(X.p[v0..], v0);
      MoveDown(X, v0);
    } else {
      assert X.p[0..] == X.p;
    }
    if v1 > 0 {
      ShiftRBits(X, v1);
    }
  }

  /** mpi_shift_r: the magnitude is halved count times, rounding toward zero. */
  method ShiftR(X: Mpi, count: nat)
    requires X.Num()
    modifies X
    ensures X.Num() && |X.p| == old(|X.p|)
    ensures X.Abs() == old(X.Abs()) / P2(count)
    ensures X.s == old(X.s) || (X.s == 1 && X.Abs() == 0)
  {
    var v0 := count / 32;
    var v1 := count % 32;
    if v0 > |X.p| || (v0 == |X.p| && v1 > 0) {
      AllShiftedOut(X.p, count);
      Lset(X, 0);
      return;
    }
    ShiftRInTwo(X.p, v0, v1);
    ShiftRLoops(X, v0, v1);
  }

  lemma AllShiftedOut(x: seq<Limb>, count: nat)
    requires count >= 32 * |x|
    ensures Val(x) / P2(count) == 0
  {
    ValBound(x);
    PwIsP2(|x|);
    P2Monotone(32 * |x|, count);
    DivUnique(Val(x), P2(count), 0, Val(x));
  }

  lemma ShiftRInTwo(x: seq<Limb>, v0: nat, v1: nat)
    requires v0 <= |x|
    ensures Val(x) / P2(32 * v0 + v1) == Val(x[v0..]) / P2(v1)
  {
    ValSplit(x, v0);
    ValBound(x[..v0]);
    PwIsP2(v0);
    P2Add(32 * v0, v1);
    DropLow(Val(x), Val(x[..v0]), Val(x[v0..]), Pw(v0), P2(v1));
  }

  lemma DropLow(v: int, lo: int, hi: int, w: int, p: int)
    requires 0 <= lo < w && p > 0 && v == lo + w * hi
    ensures w * p > 0 && v / (w * p) == hi / p
  {
    DivUnique(v, w, hi, lo);
    DivDiv(v, w, p);
  }
}
