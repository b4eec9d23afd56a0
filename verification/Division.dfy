/** Long division of multi-precision integers (HAC 14.20) and the remainders built on it. */
module Division {
  import opened Limbs
  import opened Bits
  import opened Mul
  import opened BigNum
  import opened Shifts

  /** Two limbs side by side. */
  function Two(hi: nat, lo: nat): nat {
    hi * 0x1_0000_0000 + lo
  }

  /** The condition of the do-while loop: T1 > T2. */
  ghost predicate Overshoots(x: seq<Limb>, y: seq<Limb>, i: nat, t: nat, z: Limb)
    requires 1 <= i < |x| && t < |y|
  {
    z * Lead2(y, t) > Lead3(x, i)
  }

  /** A number below 2^(32(i+1)) is its limb i, its limb i-1 and what is below. */
  lemma TopLimb(p: seq<Limb>, i: nat)
    requires i < |p| && Val(p) < Pw(i + 1)
    ensures Val(p) == p[i] * Pw(i) + Val(p[..i]) && Val(p[..i]) < Pw(i)
  {
    ValHighZero(p, i + 1);
    ValTrim(p, i + 1);
    ValPrefix(p, i);
    ValBound(p[..i]);
  }

  lemma TopTwo(p: seq<Limb>, i: nat)
    requires 1 <= i < |p| && Val(p) < Pw(i + 1)
    ensures Val(p) == Two(p[i], p[i - 1]) * Pw(i - 1) + Val(p[..i - 1])
    ensures Val(p[..i - 1]) < Pw(i - 1)
  {
    TopLimb(p, i);
    ValPrefix(p, i - 1);
    ValBound(p[..i - 1]);
    MulAdd(Two(p[i], 0), p[i - 1], Pw(i - 1));
    MulAssoc(p[i], 0x1_0000_0000, Pw(i - 1));
  }

  lemma TopThree(p: seq<Limb>, i: nat)
    requires 2 <= i < |p| && Val(p) < Pw(i + 1)
    ensures Val(p) == Two(Two(p[i], p[i - 1]), p[i - 2]) * Pw(i - 2) + Val(p[..i - 2])
    ensures Val(p[..i - 2]) < Pw(i - 2)
  {
    TopTwo(p, i);
    ValPrefix(p, i - 2);
    ValBound(p[..i - 2]);
    var u := Two(p[i], p[i - 1]);
    MulAdd(u * 0x1_0000_0000, p[i - 2], Pw(i - 2));
    MulAssoc(u, 0x1_0000_0000, Pw(i - 2));
  }

  /** An upper estimate: when only the leading parts are divided, the true digit is not exceeded. */
  lemma NotBelow(x: nat, d: nat, q: nat, u: nat, v: nat, w: nat)
    requires w > 0 && q * d <= x < (u + 1) * w && v * w <= d
    ensures q * v <= u
  {
    MulLe(v * w, d, q);
    MulAssoc(q, v, w);
    if q * v >= u + 1 {
      MulLe(u + 1, q * v, w);
    }
  }

  /** A lower estimate: a digit that fits the leading parts is at most one too big. */
  lemma AtMostOneAbove(x: nat, d: nat, qh: nat, w3: nat, v2: nat, w: nat)
    requires qh >= 1 && qh * v2 <= w3 && w3 * w <= x && d <= (v2 + 1) * w && qh <= v2
    ensures (qh - 1) * d <= x
  {
    MulLe(d, (v2 + 1) * w, qh - 1);
    MulAssoc(qh - 1, v2 + 1, w);
    MulAdd(v2, 1, qh - 1);
    MulSub(qh, 1, v2);
    MulLe((qh - 1) * (v2 + 1), w3, w);
  }

  /** The digit at position j of a quotient by d0 * 2^(32j). */
  ghost function Digit(x: nat, y: nat, j: nat): nat
    requires y > 0
  {
    MulPos(y, Pw(j));
    x / (y * Pw(j))
  }

  lemma DigitBounds(x: nat, y: nat, j: nat)
    requires y > 0 && x < y * Pw(j + 1)
    ensures y * Pw(j) > 0
    ensures Digit(x, y, j) * (y * Pw(j)) <= x < (Digit(x, y, j) + 1) * (y * Pw(j))
    ensures Digit(x, y, j) < 0x1_0000_0000
  {
    var d := y * Pw(j);
    MulPos(y, Pw(j));
    DivBounds(x, d);
    MulSwap(y, 0x1_0000_0000, Pw(j));
    if Digit(x, y, j) >= 0x1_0000_0000 {
      MulLe(0x1_0000_0000, Digit(x, y, j), d);
    }
  }

  /** The shape of one division step: y has t+1 limbs, x is the running remainder at limb i. */
  ghost predicate Step(x: seq<Limb>, y: seq<Limb>, i: nat, t: nat) {
    t < i < |x| && t < |y| && 0 < Val(y) < Pw(t + 1) && y[t] != 0 &&
    Val(x) < Val(y) * Pw(i - t)
  }

  lemma StepBound(x: seq<Limb>, y: seq<Limb>, i: nat, t: nat)
    requires Step(x, y, i, t)
    ensures Val(x) < Pw(i + 1)
  {
    MulLe(Val(y), Pw(t + 1), Pw(i - t));
    PwAdd(t + 1, i - t);
  }

  /** The two top limbs bound the digit times the divisor's top limb. */
  lemma TopsBound(x: seq<Limb>, y: seq<Limb>, i: nat, t: nat, q: nat, u: nat, v: nat)
    requires Step(x, y, i, t)
    requires q == Digit(Val(x), Val(y), i - t - 1) && u == Two(x[i], x[i - 1]) && v == y[t] as int
    ensures q <= 0xFFFF_FFFF && q * v <= u
  {
    var j := i - t - 1;
    var d := Val(y) * Pw(j);
    DigitBounds(Val(x), Val(y), j);
    StepBound(x, y, i, t);
    TopTwo(x, i);
    MulAdd(u, 1, Pw(i - 1));
    TopLimb(y, t);
    PwAdd(t, j);
    MulLe(v * Pw(t), Val(y), Pw(j));
    MulAssoc(v, Pw(t), Pw(j));
    NotBelow(Val(x), d, q, u, v, Pw(i - 1));
  }

  /** The two-limb by one-limb estimate is never below the true digit. */
  lemma EstimateNotBelow(x: seq<Limb>, y: seq<Limb>, i: nat, t: nat)
    requires Step(x, y, i, t)
    ensures Digit(Val(x), Val(y), i - t - 1) <= 0xFFFF_FFFF
    ensures Digit(Val(x), Val(y), i - t - 1) <= Two(x[i], x[i - 1]) / y[t] as int
  {
    var q, u, v := Digit(Val(x), Val(y), i - t - 1), Two(x[i], x[i - 1]), y[t] as int;
    TopsBound(x, y, i, t, q, u, v);
    QuotientAtLeast(q, u, v);
  }

  lemma QuotientAtLeast(q: nat, u: nat, v: nat)
    requires v > 0 && q * v <= u
    ensures q <= u / v
  {
    DivBounds(u, v);
    if u / v < q {
      MulLe(u / v + 1, q, v);
    }
  }

  /** The three leading limbs of the remainder, as T2 holds them. */
  function Lead3(x: seq<Limb>, i: nat): nat
    requires 1 <= i < |x|
  {
    Two(Two(x[i], x[i - 1]), if i < 2 then 0 else x[i - 2])
  }

  /** The two leading limbs of the divisor, as T1 holds them. */
  function Lead2(y: seq<Limb>, t: nat): nat
    requires t < |y|
  {
    Two(y[t], if t < 1 then 0 else y[t - 1])
  }

  /** The three-limb by two-limb test accepts the true digit and everything it accepts is at most one above. */
  lemma TestExact(x: seq<Limb>, y: seq<Limb>, i: nat, t: nat, qh: nat)
    requires Step(x, y, i, t) && qh <= 0xFFFF_FFFF
    ensures Digit(Val(x), Val(y), i - t - 1) * Lead2(y, t) <= Lead3(x, i)
    ensures qh * Lead2(y, t) <= Lead3(x, i) ==> qh <= Digit(Val(x), Val(y), i - t - 1) + 1
  {
    var j := i - t - 1;
    var d := Val(y) * Pw(j);
    DigitBounds(Val(x), Val(y), j);
    StepBound(x, y, i, t);
    if t >= 1 {
      TestLong(x, y, i, t, qh, d, Digit(Val(x), Val(y), j));
    } else {
      TestShort(x, y, i, qh, d, Digit(Val(x), Val(y), j));
    }
  }

  lemma TestLong(x: seq<Limb>, y: seq<Limb>, i: nat, t: nat, qh: nat, d: nat, q: nat)
    requires Step(x, y, i, t) && qh <= 0xFFFF_FFFF && t >= 1
    requires Val(x) < Pw(i + 1) && d == Val(y) * Pw(i - t - 1)
    requires q * d <= Val(x) < (q + 1) * d
    ensures q * Lead2(y, t) <= Lead3(x, i)
    ensures qh * Lead2(y, t) <= Lead3(x, i) ==> qh <= q + 1
  {
    var j, v2, w3, w := i - t - 1, Lead2(y, t), Lead3(x, i), Pw(i - 2);
    TopThree(x, i);
    MulAdd(w3, 1, w);
    TopTwo(y, t);
    PwAdd(t - 1, j);
    MulLe(v2 * Pw(t - 1), Val(y), Pw(j));
    MulAssoc(v2, Pw(t - 1), Pw(j));
    NotBelow(Val(x), d, q, w3, v2, w);
    MulAdd(v2, 1, Pw(t - 1));
    MulLe(Val(y), (v2 + 1) * Pw(t - 1), Pw(j));
    MulAssoc(v2 + 1, Pw(t - 1), Pw(j));
    if qh >= 1 && qh * v2 <= w3 {
      AtMostOneAbove(Val(x), d, qh, w3, v2, w);
      Cancel(qh - 1, q, d, Val(x));
    }
  }

  lemma Cancel(a: nat, q: nat, d: nat, x: nat)
    requires d > 0 && a * d <= x < (q + 1) * d
    ensures a <= q
  {
    if a > q {
      MulLe(q + 1, a, d);
    }
  }

  /** With a one-limb divisor: the pieces the test compares. */
  lemma ShortPieces(x: seq<Limb>, y: seq<Limb>, i: nat) returns (u: nat, low: nat, w: nat, v: nat, x0: nat)
    requires Step(x, y, i, 0) && Val(x) < Pw(i + 1)
    ensures Val(x) == u * w + low && low < w && v > 0 && x0 < 0x1_0000_0000 && w == Pw(i - 1)
    ensures Val(y) == v && Lead2(y, 0) == v * 0x1_0000_0000 && Lead3(x, i) == u * 0x1_0000_0000 + x0
  {
    TopTwo(x, i);
    TopLimb(y, 0);
    assert y[..0] == [];
    u, low, w := Two(x[i], x[i - 1]), Val(x[..i - 1]), Pw(i - 1);
    v, x0 := y[0] as int, if i < 2 then 0 else x[i - 2] as int;
  }

  lemma TestShort(x: seq<Limb>, y: seq<Limb>, i: nat, qh: nat, d: nat, q: nat)
    requires Step(x, y, i, 0) && qh <= 0xFFFF_FFFF
    requires Val(x) < Pw(i + 1) && d == Val(y) * Pw(i - 1)
    requires q * d <= Val(x) < (q + 1) * d
    ensures q * Lead2(y, 0) <= Lead3(x, i)
    ensures qh * Lead2(y, 0) <= Lead3(x, i) ==> qh <= q + 1
  {
    var u, low, w, v, x0 := ShortPieces(x, y, i);
    ShortTest(Val(x), u, low, w, v, q, qh, x0);
  }

  lemma ShortTest(x: nat, u: nat, low: nat, w: nat, y: nat, q: nat, qh: nat, x0: nat)
    requires x == u * w + low && low < w && y > 0 && x0 < 0x1_0000_0000
    requires q * (y * w) <= x < (q + 1) * (y * w)
    ensures q * (y * 0x1_0000_0000) <= u * 0x1_0000_0000 + x0
    ensures qh * (y * 0x1_0000_0000) <= u * 0x1_0000_0000 + x0 ==> qh <= q
  {
    MulAdd(u, 1, w);
    NotBelow(x, y * w, q, u, y, w);
    MulSwap(q, y, 0x1_0000_0000);
    if qh * (y * 0x1_0000_0000) <= u * 0x1_0000_0000 + x0 {
      MulSwap(qh, y, 0x1_0000_0000);
      MulLe(qh * y, u, w);
      MulAssoc(qh, y, w);
      MulPos(y, w);
      Cancel(qh, q, y * w, x);
    }
  }

  /** The first estimate of a quotient digit: two limbs by one, capped at one limb. */
  method Estimate(X: Mpi, Y: Mpi, i: nat, t: nat) returns (z: Limb)
    requires Step(X.p, Y.p, i, t)
    ensures z >= Digit(X.Abs(), Y.Abs(), i - t - 1)
  {
    EstimateNotBelow(X.p, Y.p, i, t);
    if X.p[i] >= Y.p[t] {
      return 0xFFFF_FFFF;
    }
    var r := Two(X.p[i], X.p[i - 1]) / Y.p[t] as int;
    if r > 0xFFFF_FFFF {
      r := 0xFFFF_FFFF;
    }
    z := r;
  }

  /** The limb stores into T1 and T2, after mpi_lset has cleared the whole buffer. */
  method LoadLimbs(T: Mpi, a: Limb, b: Limb, c: Limb)
    requires |T.p| >= (if c == 0 then 2 else 3)
    modifies T
    ensures T.Num() && T.s == 1 && |T.p| == old(|T.p|)
    ensures T.Abs() == Two(Two(c, b), a)
  {
    Lset(T, 0);
    ghost var z := T.p;
    ValHighZero(z, 0);
    ValUpdate(z, 0, a);
    T.p := T.p[0 := a];
    ValUpdate(T.p, 1, b);
    T.p := T.p[1 := b];
    if c != 0 {
      ValUpdate(T.p, 2, c);
      T.p := T.p[2 := c];
    }
    assert Pw(1) == 0x1_0000_0000 && Pw(2) == 0x1_0000_0000 * Pw(1);
  }

  /** The do-while loop that lowers the estimate until the 3-by-2 test accepts it. */
  method Refine(X: Mpi, Y: Mpi, T1: Mpi, T2: Mpi, i: nat, t: nat, z0: Limb, ghost q: nat) returns (z: Limb)
    requires Step(X.p, Y.p, i, t)
    requires z0 >= q == Digit(X.Abs(), Y.Abs(), i - t - 1)
    requires |T1.p| >= 2 && |T2.p| >= 3
    requires T1 != T2 && X != T1 && X != T2 && Y != T1 && Y != T2
    modifies T1, T2
    ensures q <= z <= q + 1
    ensures |T1.p| >= 2 && |T2.p| >= 3
  {
    z := WrapAdd(z0, 1);
    var again := true;
    while again
      invariant |T1.p| >= 2 && |T2.p| >= 3
      invariant again ==> WrapSub(z, 1) >= q
      invariant !again ==> q <= z <= q + 1
      decreases again, WrapSub(z, 1)
    {
      z := WrapSub(z, 1);
      again := Overshoot(X, Y, T1, T2, i, t, z, q);
    }
  }

  /** One round of the loop: a digit that overshoots is above the true one, one that does not is at most one above. */
  method Overshoot(X: Mpi, Y: Mpi, T1: Mpi, T2: Mpi, i: nat, t: nat, z: Limb, ghost q: nat) returns (over: bool)
    requires Step(X.p, Y.p, i, t) && q == Digit(X.Abs(), Y.Abs(), i - t - 1)
    requires |T1.p| >= 2 && |T2.p| >= 3
    requires T1 != T2 && X != T1 && X != T2 && Y != T1 && Y != T2
    modifies T1, T2
    ensures |T1.p| >= 2 && |T2.p| >= 3
    ensures over ==> z > q
    ensures !over ==> z <= q + 1
  {
    TestDecides(X.p, Y.p, i, t, z);
    over := TestDigit(X, Y, T1, T2, i, t, z);
  }

  /** What the 3-by-2 test says about the digit. */
  lemma TestDecides(x: seq<Limb>, y: seq<Limb>, i: nat, t: nat, z: Limb)
    requires Step(x, y, i, t)
    ensures Overshoots(x, y, i, t, z) ==> z > Digit(Val(x), Val(y), i - t - 1)
    ensures !Overshoots(x, y, i, t, z) ==> z <= Digit(Val(x), Val(y), i - t - 1) + 1
  {
    TestExact(x, y, i, t, z);
    var q := Digit(Val(x), Val(y), i - t - 1);
    if z <= q {
      MulLe(z, q, Lead2(y, t));
    }
  }

  /** mpi_mul_int with a quotient digit: the digit passes through t_sint unchanged. */
  method MulDigit(X: Mpi, A: Mpi, z: Limb)
    requires A.Num() && A.s == 1
    modifies X
    ensures X.Num() && X.Int() == X.Abs() == z * old(A.Abs()) && |X.p| >= old(|X.p|)
  {
    ghost var a := A.Abs();
    MulInt(X, A, z);
    assert X.Int() == a * z;
    MulNonNeg(a, z);
  }

  /** The 3-by-2 test: does digit z overshoot the leading limbs? */
  method TestDigit(X: Mpi, Y: Mpi, T1: Mpi, T2: Mpi, i: nat, t: nat, z: Limb) returns (over: bool)
    requires 1 <= i < |X.p| && t < |Y.p|
    requires |T1.p| >= 2 && |T2.p| >= 3
    requires T1 != T2 && X != T1 && X != T2 && Y != T1 && Y != T2
    modifies T1, T2
    ensures over == Overshoots(X.p, Y.p, i, t, z)
    ensures |T1.p| >= 2 && |T2.p| >= 3
  {
    LoadLimbs(T1, if t < 1 then 0 else Y.p[t - 1], Y.p[t], 0);
    MulDigit(T1, T1, z);
    LoadLimbs(T2, if i < 2 then 0 else X.p[i - 2], X.p[i - 1], X.p[i]);
    var r := CmpMpi(T1, T2);
    over := r > 0;
  }

  /** Subtracting the digit's multiple of the divisor. */
  method SubtractMultiple(X: Mpi, Y: Mpi, T1: Mpi, j: nat, z: Limb)
    requires X.Num() && Y.Num() && Y.s == 1
    requires X != Y && X != T1 && Y != T1
    modifies X, T1
    ensures X.Num() && T1.Num() && |X.p| >= old(|X.p|) && |T1.p| >= old(|T1.p|)
    ensures X.Int() == old(X.Int()) - z * (Y.Abs() * Pw(j))
  {
    PwIsP2(j);
    ghost var y := Y.Abs();
    MulDigit(T1, Y, z);
    ShiftL(T1, 32 * j);
    ShiftedMultiple(z, y, Pw(j));
    SubMpi(X, X, T1);
  }

  lemma ShiftedMultiple(z: nat, y: nat, w: nat)
    ensures w * (z * y) == z * (y * w) >= 0
  {
    MulAssoc(z, y, w);
    MulNonNeg(z, y);
    MulNonNeg(z * y, w);
  }

  /** The divisor moved up j limbs. */
  method CopyShifted(T: Mpi, Y: Mpi, j: nat)
    requires Y.Num() && Y.s == 1 && T != Y
    modifies T
    ensures T.Num() && |T.p| >= old(|T.p|)
    ensures T.Int() == Y.Abs() * Pw(j)
  {
    Copy(T, Y);
    ShiftLLimbs(T, j);
  }

  /** The add-back step. */
  method AddBack(X: Mpi, Y: Mpi, T1: Mpi, j: nat)
    requires X.Num() && Y.Num() && Y.s == 1
    requires X != Y && X != T1 && Y != T1
    modifies X, T1
    ensures X.Num() && T1.Num() && |X.p| >= old(|X.p|) && |T1.p| >= old(|T1.p|)
    ensures X.Int() == old(X.Int()) + Y.Abs() * Pw(j)
  {
    CopyShifted(T1, Y, j);
    AddMpi(X, X, T1);
  }

  /** Multiply, shift, subtract, and add back once when the digit was one too big. */
  method SubtractDigit(X: Mpi, Y: Mpi, T1: Mpi, j: nat, z0: Limb) returns (z: Limb)
    requires X.Num() && Y.Num() && Y.s == 1 && X.Int() >= 0
    requires X != Y && X != T1 && Y != T1
    requires Y.Abs() > 0 && Digit(X.Abs(), Y.Abs(), j) <= z0 <= Digit(X.Abs(), Y.Abs(), j) + 1
    modifies X, T1
    ensures X.Num() && T1.Num() && |X.p| >= old(|X.p|) && |T1.p| >= old(|T1.p|)
    ensures z == Digit(old(X.Abs()), Y.Abs(), j)
    ensures 0 <= X.Int() == old(X.Int()) - z * (Y.Abs() * Pw(j)) < Y.Abs() * Pw(j)
  {
    ghost var x, d := X.Abs(), Y.Abs() * Pw(j);
    ghost var q := Digit(x, Y.Abs(), j);
    DigitSplit(x, Y.Abs(), j, z0);
    SubtractMultiple(X, Y, T1, j, z0);
    z := z0;
    var r := CmpInt(X, 0);
    if r < 0 {
      AddBack(X, Y, T1, j);
      z := WrapSub(z, 1);
    }
  }

  /** A digit that is right leaves a remainder in range; one too big leaves a negative one. */
  lemma DigitSplit(x: nat, y: nat, j: nat, z: nat)
    requires y > 0
    requires Digit(x, y, j) <= z <= Digit(x, y, j) + 1
    ensures z == Digit(x, y, j) ==> 0 <= x - z * (y * Pw(j)) < y * Pw(j)
    ensures z > Digit(x, y, j) ==> x - z * (y * Pw(j)) < 0 && (z - 1) * (y * Pw(j)) == z * (y * Pw(j)) - y * Pw(j)
    ensures z > Digit(x, y, j) ==> 0 <= x - (z - 1) * (y * Pw(j)) < y * Pw(j)
  {
    var d := y * Pw(j);
    MulPos(y, Pw(j));
    DivBounds(x, d);
    MulAdd(Digit(x, y, j), 1, d);
    MulSub(z, 1, d);
  }

  /** What the digit loop keeps: the dividend is the digits so far times the divisor plus the rest. */
  ghost predicate Dividing(z: seq<Limb>, x0: nat, y: nat, x: int, m: nat) {
    y > 0 && m <= |z| && (forall k :: 0 <= k < m ==> z[k] == 0) &&
    x0 == Val(z) * y + x && 0 <= x < y * Pw(m)
  }

  lemma DivideStep(z: seq<Limb>, x0: nat, y: nat, x: int, m: nat, q: Limb)
    requires 0 < m && Dividing(z, x0, y, x, m)
    requires 0 <= x - q * (y * Pw(m - 1)) < y * Pw(m - 1)
    ensures Dividing(z[m - 1 := q], x0, y, x - q * (y * Pw(m - 1)), m - 1)
  {
    ValUpdate(z, m - 1, q);
    MulAdd(Val(z), q * Pw(m - 1), y);
    MulAssoc(q, Pw(m - 1), y);
  }

  /** One pass of the digit loop. */
  method DivideDigit(X: Mpi, Y: Mpi, Z: Mpi, T1: Mpi, T2: Mpi, i: nat, t: nat, ghost x0: nat)
    requires X.Num() && X.Int() >= 0 && Y.Num() && Y.s == 1
    requires Apart(X, Y, Z, T1, T2) && |T1.p| >= 2 && |T2.p| >= 3
    requires Step(X.p, Y.p, i, t)
    requires Dividing(Z.p, x0, Y.Abs(), X.Int(), i - t)
    modifies X, Z`p, T1, T2
    ensures X.Num() && X.Int() >= 0 && |X.p| >= old(|X.p|) && |Z.p| == old(|Z.p|)
    ensures |T1.p| >= 2 && |T2.p| >= 3
    ensures Dividing(Z.p, x0, Y.Abs(), X.Int(), i - t - 1)
  {
    ghost var q := Digit(X.Abs(), Y.Abs(), i - t - 1);
    ghost var z0, x := Z.p, X.Int();
    var z := Estimate(X, Y, i, t);
    z := Refine(X, Y, T1, T2, i, t, z, q);
    z := SubtractDigit(X, Y, T1, i - t - 1, z);
    DivideStep(z0, x0, Y.Abs(), x, i - t, z);
    Z.p := Z.p[i - t - 1 := z];
  }

  /** The five temporaries of a division are five numbers. */
  ghost predicate Apart(X: Mpi, Y: Mpi, Z: Mpi, T1: Mpi, T2: Mpi) {
    X != Y && X != Z && X != T1 && X != T2 && Y != Z && Y != T1 && Y != T2 && Z != T1 && Z != T2 && T1 != T2
  }

  /** The digit loop, from limb n of the dividend down to the length of the divisor. */
  method DivideDigits(X: Mpi, Y: Mpi, Z: Mpi, T1: Mpi, T2: Mpi, n: nat, t: nat, ghost x0: nat)
    requires X.Num() && X.Int() >= 0 && Y.Num() && Y.s == 1
    requires Apart(X, Y, Z, T1, T2) && |T1.p| >= 2 && |T2.p| >= 3
    requires t <= n < |X.p| && t < |Y.p| && 0 < Y.Abs() < Pw(t + 1) && Y.p[t] != 0
    requires Dividing(Z.p, x0, Y.Abs(), X.Int(), n - t)
    modifies X, Z`p, T1, T2
    ensures X.Num() && X.Int() >= 0 && |Z.p| == old(|Z.p|)
    ensures Dividing(Z.p, x0, Y.Abs(), X.Int(), 0)
  {
    var i := n;
    while i > t
      invariant t <= i <= n < |X.p| && |Z.p| == old(|Z.p|)
      invariant X.Num() && X.Int() >= 0
      invariant |T1.p| >= 2 && |T2.p| >= 3
      invariant Dividing(Z.p, x0, Y.Abs(), X.Int(), i - t)
    {
      DivideDigit(X, Y, Z, T1, T2, i, t, x0);
      i := i - 1;
    }
  }

  /** Dividend below four aligned divisors: the top quotient limb is found by at most four subtractions. */
  ghost predicate TopDividing(z: seq<Limb>, x0: nat, y: nat, x: int, m: nat, c: nat) {
    y > 0 && m < |z| && c <= 4 && z[m] == c && (forall k :: 0 <= k < m ==> z[k] == 0) &&
    x0 == Val(z) * y + x && 0 <= x && x + c * (y * Pw(m)) < 4 * (y * Pw(m))
  }

  lemma TopStep(z: seq<Limb>, x0: nat, y: nat, x: int, m: nat, c: nat)
    requires TopDividing(z, x0, y, x, m, c) && x >= y * Pw(m)
    ensures c < 4 && TopDividing(z[m := c + 1], x0, y, x - y * Pw(m), m, c + 1)
  {
    MulPos(y, Pw(m));
    ValUpdate(z, m, (c + 1) as int as Limb);
    MulAdd(Val(z), Pw(m), y);
    MulAdd(c, 1, y * Pw(m));
    if c >= 4 {
      MulLe(4, c, y * Pw(m));
    }
  }

  /** The loop that finds the top quotient limb by repeated subtraction. */
  method TopRound(X: Mpi, Y: Mpi, Z: Mpi, m: nat, ghost x0: nat, ghost y: nat, ghost c: nat)
    requires X.Num() && Y.Num() && X != Y && X != Z && Y != Z
    requires Y.Int() == y * Pw(m) && m < |Z.p| && X.Int() >= Y.Int()
    requires TopDividing(Z.p, x0, y, X.Int(), m, c)
    modifies X, Z`p
    ensures X.Num() && |X.p| >= old(|X.p|) && |Z.p| == old(|Z.p|) && c < 4
    ensures TopDividing(Z.p, x0, y, X.Int(), m, c + 1)
  {
    TopStep(Z.p, x0, y, X.Int(), m, c);
    Z.p := Z.p[m := WrapAdd(Z.p[m], 1)];
    SubMpi(X, X, Y);
  }

  method DivideTop(X: Mpi, Y: Mpi, Z: Mpi, m: nat, ghost x0: nat, ghost y: nat)
    requires X.Num() && Y.Num() && X != Y && X != Z && Y != Z
    requires Y.Int() == y * Pw(m) && m < |Z.p|
    requires TopDividing(Z.p, x0, y, X.Int(), m, 0)
    modifies X, Z`p
    ensures X.Num() && X.Int() >= 0 && |X.p| >= old(|X.p|) && |Z.p| == old(|Z.p|)
    ensures Dividing(Z.p, x0, y, X.Int(), m)
  {
    ghost var c := 0;
    var r := CmpMpi(X, Y);
    while r >= 0
      invariant X.Num() && |X.p| >= old(|X.p|) && |Z.p| == old(|Z.p|)
      invariant Y.Int() == y * Pw(m)
      invariant 0 <= c && TopDividing(Z.p, x0, y, X.Int(), m, c)
      invariant r == Sgn(X.Int() - Y.Int())
      decreases 4 - c
    {
      TopRound(X, Y, Z, m, x0, y, c);
      c := c + 1;
      r := CmpMpi(X, Y);
    }
  }

  /** A divisor whose bit length is 31 modulo 32 has between 30 and 31 bits in its top limb. */
  lemma NormalTop(p: seq<Limb>, t: nat)
    requires t < |p| && BitLen(Val(p)) == 32 * t + 31
    ensures 0 < Val(p) < Pw(t + 1) && p[t] != 0
    ensures 0x4000_0000 * Pw(t) <= Val(p)
  {
    P2Of32();
    BitLenBounds(Val(p));
    PwIsP2(t);
    PwIsP2(t + 1);
    P2Add(30, 32 * t);
    P2Monotone(32 * t + 31, 32 * (t + 1));
    TopLimb(p, t);
  }

  lemma TopRoom(x: nat, y: nat, n: nat, t: nat)
    requires t <= n && x < Pw(n + 1) && 0x4000_0000 * Pw(t) <= y
    ensures x < 4 * (y * Pw(n - t))
  {
    PwAdd(t, n - t);
    MulLe(0x4000_0000 * Pw(t), y, Pw(n - t));
    MulAssoc(0x4000_0000, Pw(t), Pw(n - t));
  }

  /** How far a divisor of bit length n is shifted up. */
  function NormalShift(n: nat): nat {
    if n % 32 < 31 then 31 - n % 32 else 0
  }

  /** The shift that makes a bit length 31 modulo 32. */
  lemma NormalBits(n: nat)
    ensures n + NormalShift(n) == 32 * (n / 32) + 31 && NormalShift(n) <= 31
    ensures BitsToLimbs(n + NormalShift(n)) == n / 32 + 1
    ensures BitsToLimbs(n) <= n / 32 + 1
    ensures NormalShift(n) == 0 ==> BitsToLimbs(n) == n / 32 + 1
  {
  }

  /** A positive copy in a fresh number. */
  method CopyAbs(A: Mpi) returns (X: Mpi)
    requires A.Num()
    ensures fresh(X) && X.Num() && X.s == 1 && X.Abs() == A.Abs()
    ensures |X.p| == Max(1, BitsToLimbs(BitLen(A.Abs()))) <= |A.p|
  {
    X := new Mpi();
    Copy(X, A);
    X.s := 1;
    LengthFits(A.p);
  }

  lemma LengthFits(p: seq<Limb>)
    ensures LimbLen(Val(p)) == BitsToLimbs(BitLen(Val(p))) <= |p|
  {
    LimbLenBits(Val(p));
    LimbLenBounds(Val(p));
    ValBound(p);
    if LimbLen(Val(p)) > |p| {
      PwMonotone(|p|, LimbLen(Val(p)) - 1);
    }
  }

  /** Copies of the operands, both shifted up until the divisor's bit length is 31 modulo 32. */
  method Normalize(A: Mpi, B: Mpi) returns (X: Mpi, Y: Mpi, k: nat)
    requires A.Num() && B.Num() && 0 < B.Abs() <= A.Abs()
    ensures fresh(X) && fresh(Y) && X != Y
    ensures X.Num() && X.s == 1 && X.Abs() == P2(k) * A.Abs()
    ensures Y.Num() && Y.s == 1 && Y.Abs() == P2(k) * B.Abs()
    ensures BitLen(Y.Abs()) == 32 * (|Y.p| - 1) + 31
    ensures |X.p| <= |A.p| + 1
  {
    X := CopyAbs(A);
    Y := CopyAbs(B);
    k := Msb(Y);
    NormalBits(k);
    BitLenShift(B.Abs(), NormalShift(k));
    k := NormalShift(k);
    NormalRoom(BitLen(A.Abs()), k, |A.p|);
    BitLenPositive(B.Abs());
    NormalLength(BitLen(B.Abs()), k);
    ShiftIfNeeded(X, Y, k);
  }

  method ShiftIfNeeded(X: Mpi, Y: Mpi, k: nat)
    requires X.Num() && Y.Num() && X != Y
    modifies X`p, Y`p
    ensures X.Num() && X.Abs() == P2(k) * old(X.Abs()) && Y.Num() && Y.Abs() == P2(k) * old(Y.Abs())
    ensures |X.p| == if k > 0 then Max(old(|X.p|), BitsToLimbs(BitLen(old(X.Abs())) + k)) else old(|X.p|)
    ensures |Y.p| == if k > 0 then Max(old(|Y.p|), BitsToLimbs(BitLen(old(Y.Abs())) + k)) else old(|Y.p|)
  {
    if k > 0 {
      ShiftBoth(X, Y, k);
    }
  }

  lemma BitLenPositive(v: nat)
    requires v > 0
    ensures BitLen(v) > 0
  {
  }

  lemma NormalLength(bits: nat, k: nat)
    requires bits > 0 && k == NormalShift(bits)
    ensures bits + k == 32 * ((if k > 0 then Max(Max(1, BitsToLimbs(bits)), BitsToLimbs(bits + k))
                               else Max(1, BitsToLimbs(bits))) - 1) + 31
  {
    NormalBits(bits);
  }

  lemma NormalRoom(bits: nat, k: nat, n: nat)
    requires k <= 31 && BitsToLimbs(bits) <= n
    ensures BitsToLimbs(bits + k) <= n + 1
  {
  }

  method ShiftBoth(X: Mpi, Y: Mpi, k: nat)
    requires X.Num() && Y.Num() && X != Y
    modifies X`p, Y`p
    ensures X.Num() && X.Abs() == P2(k) * old(X.Abs())
    ensures Y.Num() && Y.Abs() == P2(k) * old(Y.Abs())
    ensures |X.p| == Max(old(|X.p|), BitsToLimbs(BitLen(old(X.Abs())) + k))
    ensures |Y.p| == Max(old(|Y.p|), BitsToLimbs(BitLen(old(Y.Abs())) + k))
  {
    ShiftL(X, k);
    ShiftL(Y, k);
  }

  lemma TopFits(x: seq<Limb>, y: seq<Limb>)
    requires |x| >= 1 && |y| >= 1 && Val(y) <= Val(x)
    requires 0x4000_0000 * Pw(|y| - 1) <= Val(y)
    ensures |y| <= |x| && Val(x) < 4 * (Val(y) * Pw(|x| - |y|))
  {
    ValBound(x);
    if |x| < |y| {
      PwMonotone(|x|, |y| - 1);
    }
    TopRoom(Val(x), Val(y), |x| - 1, |y| - 1);
  }

  lemma DividingStart(z: seq<Limb>, x0: nat, y: nat, m: nat)
    requires Val(z) == 0 && y > 0 && m < |z| && x0 < 4 * (y * Pw(m))
    ensures TopDividing(z, x0, y, x0, m, 0)
  {
    ValHighZero(z, 0);
  }

  lemma ShiftBack(y: nat, m: nat)
    ensures (P2(m) * y) / P2(m) == y
  {
    DivUnique(P2(m) * y, P2(m), y, 0);
  }

  lemma DividedTop(p: seq<Limb>, t: nat)
    requires t < |p| && Pw(t) <= Val(p) < Pw(t + 1)
    ensures p[t] != 0
  {
    TopLimb(p, t);
  }

  /** The division proper: X becomes the remainder and Z the quotient of two normalised magnitudes. */
  method DivideNormal(X: Mpi, Y: Mpi, Z: Mpi)
    requires X.Num() && X.s == 1 && Y.Num() && Y.s == 1
    requires X != Y && X != Z && Y != Z && Z.Abs() == 0 && |Z.p| > |X.p| - |Y.p|
    requires BitLen(Y.Abs()) == 32 * (|Y.p| - 1) + 31 && Y.Abs() <= X.Abs()
    modifies X, Y, Z`p
    ensures X.Num() && X.Int() >= 0 && Y.Abs() == old(Y.Abs())
    ensures Dividing(Z.p, old(X.Abs()), Y.Abs(), X.Int(), 0)
  {
    var n := |X.p| - 1;
    var t := |Y.p| - 1;
    ghost var x0, y := X.Abs(), Y.Abs();
    NormalTop(Y.p, t);
    TopFits(X.p, Y.p);
    AlignAndTop(X, Y, Z, n - t, t);
    DividedTop(Y.p, t);
    DivideRest(X, Y, Z, n, t, x0);
  }

  /** The divisor is moved up to the top of the dividend and back around the search for the top limb. */
  method AlignAndTop(X: Mpi, Y: Mpi, Z: Mpi, m: nat, ghost t: nat)
    requires X.Num() && X.s == 1 && Y.Num() && Y.s == 1 && Y.Abs() > 0
    requires X != Y && X != Z && Y != Z && Z.Abs() == 0 && m < |Z.p|
    requires X.Abs() < 4 * (Y.Abs() * Pw(m))
    modifies X, Y, Z`p
    ensures X.Num() && X.Int() >= 0 && |X.p| >= old(|X.p|) && |Z.p| == old(|Z.p|)
    ensures Y.Num() && Y.s == 1 && Y.Abs() == old(Y.Abs()) && |Y.p| >= old(|Y.p|)
    ensures Dividing(Z.p, old(X.Abs()), Y.Abs(), X.Int(), m)
  {
    ghost var x0, y := X.Abs(), Y.Abs();
    DividingStart(Z.p, x0, y, m);
    ShiftLLimbs(Y, m);
    DivideTop(X, Y, Z, m, x0, y);
    ShiftRLimbs(Y, m, y);
  }

  /** mpi_shift_l by whole limbs. */
  method ShiftLLimbs(Y: Mpi, m: nat)
    requires Y.Num()
    modifies Y`p
    ensures Y.Num() && Y.Abs() == old(Y.Abs()) * Pw(m) && |Y.p| >= old(|Y.p|)
  {
    LimbShift(Y.Abs(), m);
    ShiftL(Y, 32 * m);
  }

  lemma LimbShift(v: nat, m: nat)
    ensures P2(32 * m) * v == v * Pw(m)
  {
    PwIsP2(m);
  }

  /** mpi_shift_r by whole limbs, undoing mpi_shift_l. */
  method ShiftRLimbs(Y: Mpi, m: nat, ghost y: nat)
    requires Y.Num() && Y.s == 1 && Y.Abs() == y * Pw(m)
    modifies Y
    ensures Y.Num() && Y.s == 1 && Y.Abs() == y && |Y.p| == old(|Y.p|)
  {
    LimbShift(y, m);
    ShiftBack(y, 32 * m);
    ShiftR(Y, 32 * m);
  }

  /** The digit loop with its two scratch numbers. */
  method DivideRest(X: Mpi, Y: Mpi, Z: Mpi, n: nat, t: nat, ghost x0: nat)
    requires X.Num() && X.Int() >= 0 && Y.Num() && Y.s == 1
    requires X != Y && X != Z && Y != Z
    requires t <= n < |X.p| && t < |Y.p| && 0 < Y.Abs() < Pw(t + 1) && Y.p[t] != 0
    requires Dividing(Z.p, x0, Y.Abs(), X.Int(), n - t)
    modifies X, Z`p
    ensures X.Num() && X.Int() >= 0
    ensures Dividing(Z.p, x0, Y.Abs(), X.Int(), 0)
  {
    var T1 := new Mpi();
    var T2 := new Mpi();
    Grow(T1, 2);
    Grow(T2, 3);
    DivideDigits(X, Y, Z, T1, T2, n, t, x0);
  }

  /** Quotient and remainder of magnitudes, 0 for a zero divisor. */
  ghost function Quo(a: nat, b: nat): nat {
    if b == 0 then 0 else a / b
  }

  ghost function Rem(a: nat, b: nat): nat {
    if b == 0 then 0 else a % b
  }

  /** The long case of mpi_div_mpi: Z is the quotient and X, k bits too high, the remainder. */
  method DivideMagnitudes(A: Mpi, B: Mpi) returns (X: Mpi, Z: Mpi, k: nat)
    requires A.Num() && B.Num() && 0 < B.Abs() <= A.Abs()
    ensures fresh(X) && fresh(Z) && X != Z && X.Num() && Z.Num() && Z.s == 1
    ensures Z.Abs() == Quo(A.Abs(), B.Abs())
    ensures Quo(X.Abs(), P2(k)) == Rem(A.Abs(), B.Abs())
  {
    var Y;
    X, Y, k := Normalize(A, B);
    Z := new Mpi();
    Grow(Z, |A.p| + 2);
    Lset(Z, 0);
    DivideScaled(X, Y, Z, k, A.Abs(), B.Abs());
  }

  /** The division of two magnitudes that the same shift has scaled. */
  method DivideScaled(X: Mpi, Y: Mpi, Z: Mpi, ghost k: nat, ghost a: nat, ghost b: nat)
    requires X.Num() && X.s == 1 && X.Abs() == P2(k) * a
    requires Y.Num() && Y.s == 1 && Y.Abs() == P2(k) * b && 0 < b <= a
    requires BitLen(Y.Abs()) == 32 * (|Y.p| - 1) + 31
    requires X != Y && X != Z && Y != Z && Z.Abs() == 0 && |Z.p| >= |X.p|
    modifies X, Y, Z`p
    ensures X.Num() && Z.p != [] && Z.Abs() == Quo(a, b) && Quo(X.Abs(), P2(k)) == Rem(a, b)
  {
    MulLe(b, a, P2(k));
    DivideNormal(X, Y, Z);
    Denormalize(a, b, k, Z.p, X.Int());
  }

  /** Scaling both operands leaves the quotient and scales the remainder. */
  lemma Denormalize(a: nat, b: nat, k: nat, z: seq<Limb>, x: int)
    requires b > 0 && Dividing(z, P2(k) * a, P2(k) * b, x, 0)
    ensures x >= 0 && Val(z) == Quo(a, b) && Quo(x, P2(k)) == Rem(a, b)
  {
    Descale(a, b, P2(k), Val(z), x);
  }

  lemma Descale(a: nat, b: nat, w: nat, z: nat, x: nat)
    requires w > 0 && b > 0 && w * a == z * (w * b) + x && x < w * b
    ensures z == a / b && x / w == a % b
  {
    MulSwap(z, w, b);
    MulSub(a, z * b, w);
    var r := a - z * b;
    if r < 0 {
      MulLe(r, -1, w);
    } else if r >= b {
      MulLe(b, r, w);
    }
    DivUnique(a, b, z, r);
    DivUnique(w * r, w, r, 0);
  }

  /**
   * mpi_div_mpi.  A missing Q or R is null.  The quotient is written first, and what is then
   * read of the operands is what it has left of them.
   */
  method DivMpi(Q: Mpi?, R: Mpi?, A: Mpi, B: Mpi) returns (ret: Ret)
    requires A.Num() && B.Num()
    modifies Q, R
    ensures ret == (if old(B.Abs()) == 0 then DivisionByZero else Success)
    ensures ret == DivisionByZero && Q != null ==> Q.p == old(Q.p) && Q.s == old(Q.s)
    ensures ret == DivisionByZero && R != null ==> R.p == old(R.p) && R.s == old(R.s)
    ensures ret == Success && Q != null ==> Q.Num() && |Q.p| >= old(|Q.p|)
    ensures ret == Success && Q != null && Q != R ==>
              Q.Int() == Signed(QuoSign(Q, A, B, old(A.s), old(B.s)), Quo(old(A.Abs()), old(B.Abs())))
    ensures ret == Success && R != null ==> R.Num() && |R.p| >= old(|R.p|)
    ensures ret == Success && R != null ==>
              R.Int() == Remainder(Q, A, B, old(A.s), old(B.s), old(A.Abs()), old(B.Abs()))
  {
    var r := CmpInt(B, 0);
    if r == 0 {
      return DivisionByZero;
    }
    r := CmpAbs(A, B);
    if r < 0 {
      DivSmall(Q, R, A, B);
    } else {
      DivLarge(Q, R, A, B);
    }
    return Success;
  }

  /** The short case: the quotient is 0 and the remainder the dividend. */
  method DivSmall(Q: Mpi?, R: Mpi?, A: Mpi, B: Mpi)
    requires A.Num() && B.Num() && A.Abs() < B.Abs()
    modifies Q, R
    ensures Q != null ==> Q.Num() && |Q.p| >= old(|Q.p|)
    ensures Q != null && Q != R ==> Q.Int() == 0 == Quo(old(A.Abs()), old(B.Abs()))
    ensures R != null ==> R.Num() && |R.p| >= old(|R.p|)
    ensures R != null ==> R.Int() == Remainder(Q, A, B, old(A.s), old(B.s), old(A.Abs()), old(B.Abs()))
  {
    DivUnique(A.Abs(), B.Abs(), 0, A.Abs());
    if Q != null {
      Lset(Q, 0);
    }
    if R != null {
      Copy(R, A);
    }
  }

  /** The long case. */
  method DivLarge(Q: Mpi?, R: Mpi?, A: Mpi, B: Mpi)
    requires A.Num() && B.Num() && 0 < B.Abs() <= A.Abs()
    modifies Q, R
    ensures Q != null ==> Q.Num() && |Q.p| >= old(|Q.p|)
    ensures Q != null && Q != R ==>
              Q.Int() == Signed(QuoSign(Q, A, B, old(A.s), old(B.s)), Quo(old(A.Abs()), old(B.Abs())))
    ensures R != null ==> R.Num() && |R.p| >= old(|R.p|)
    ensures R != null ==> R.Int() == Remainder(Q, A, B, old(A.s), old(B.s), old(A.Abs()), old(B.Abs()))
  {
    var X, Z, k := DivideMagnitudes(A, B);
    if Q != null {
      StoreQuotient(Q, Z, A, B);
    }
    if R != null {
      StoreRemainder(R, X, k, A.s);
    }
  }

  /** The quotient store of mpi_div_mpi: the signs are read after Q has been overwritten. */
  method StoreQuotient(Q: Mpi, Z: Mpi, A: Mpi, B: Mpi)
    requires Z.Num() && Z.s == 1 && A.Num() && B.Num() && Q != Z && A != Z && B != Z
    modifies Q
    ensures Q.Num() && |Q.p| >= old(|Q.p|) && Q.s == QuoSign(Q, A, B, old(A.s), old(B.s))
    ensures Q.Int() == Signed(Q.s, Z.Abs())
  {
    Copy(Q, Z);
    Q.s := A.s * B.s;
  }

  /** The sign a quotient gets: an operand that Q overwrites is read back as positive. */
  ghost function QuoSign(Q: Mpi, A: Mpi, B: Mpi, sa: int, sb: int): int {
    (if Q == A then 1 else sa) * (if Q == B then 1 else sb)
  }

  /**
   * The quotient is the truncating one if and only if it is 0, or Q is both operands, or the
   * operand that Q overwrites was positive.
   */
  lemma QuotientRight(Q: Mpi, A: Mpi, B: Mpi, sa: int, sb: int, q: nat)
    requires (sa == 1 || sa == -1) && (sb == 1 || sb == -1) && (A == B ==> sa == sb)
    ensures Signed(QuoSign(Q, A, B, sa, sb), q) == Signed(sa * sb, q) <==>
            q == 0 || (Q == A && Q == B) || ((Q == A ==> sa == 1) && (Q == B ==> sb == 1))
  {
  }

  /** What a remainder object is given. When Q has overwritten A, that is read as the dividend. */
  ghost function Remainder(Q: Mpi?, A: Mpi, B: Mpi, sa: int, sb: int, a: nat, b: nat): int
    requires b > 0
  {
    if Q != A then Signed(sa, Rem(a, b))
    else if a < b then 0
    else Signed(QuoSign(A, A, B, sa, sb), Rem(a, b))
  }

  /**
   * The remainder is the one with the dividend's sign if and only if Q is not the dividend, or
   * the remainder is 0, or the division is a long one and the signs come out right by chance.
   */
  lemma RemainderRight(Q: Mpi?, A: Mpi, B: Mpi, sa: int, sb: int, a: nat, b: nat)
    requires (sa == 1 || sa == -1) && (sb == 1 || sb == -1) && (A == B ==> sa == sb && a == b) && b > 0
    ensures Remainder(Q, A, B, sa, sb, a, b) == Signed(sa, Rem(a, b)) <==>
            Q != A || Rem(a, b) == 0 || (a >= b && sa == sb)
  {
    if a < b {
      DivUnique(a, b, 0, a);
    }
    if A == B {
      DivUnique(a, b, 1, 0);
    }
  }

  /** -7 divided by 2 into the dividend itself: the quotient comes out as 3, the remainder as 1. */
  method DivideInPlace() returns (quotient: Mpi, rest: Mpi)
    ensures fresh(quotient) && fresh(rest) && quotient.Num() && quotient.Int() == 3 && rest.Num() && rest.Int() == 1
  {
    quotient := new Mpi();
    var B := new Mpi();
    rest := new Mpi();
    Lset(quotient, -7);
    Lset(B, 2);
    DivUnique(7, 2, 3, 1);
    var ret := DivMpi(quotient, rest, quotient, B);
  }

  /** The end of mpi_div_mpi: the remainder is moved back down and gets the dividend's sign. */
  method StoreRemainder(R: Mpi, X: Mpi, k: nat, s: int)
    requires X.Num() && X != R && (s == 1 || s == -1)
    modifies R, X
    ensures R.Num() && |R.p| >= old(|R.p|) && R.Int() == Signed(s, Quo(old(X.Abs()), P2(k)))
  {
    ShiftR(X, k);
    X.s := s;
    Copy(R, X);
    var r := CmpInt(R, 0);
    if r == 0 {
      R.s := 1;
    }
  }

  /** mpi_div_int. */
  method DivInt(Q: Mpi?, R: Mpi?, A: Mpi, b: int) returns (ret: Ret)
    requires A.Num() && -0x8000_0000 <= b < 0x8000_0000
    modifies Q, R
    ensures ret == (if b == 0 then DivisionByZero else Success)
    ensures ret == Success && Q != null ==> Q.Num()
    ensures ret == Success && Q != null && Q != R ==>
              Q.Int() == Signed((if Q == A then 1 else old(A.s)) * (if b < 0 then -1 else 1),
                                Quo(old(A.Abs()), if b < 0 then -b else b))
    ensures ret == Success && R != null ==> R.Num()
    ensures ret == Success && R != null && Q != A ==>
              R.Int() == Signed(old(A.s), Rem(old(A.Abs()), if b < 0 then -b else b))
    ensures ret == Success && R != null && Q == A && old(A.Abs()) < (if b < 0 then -b else b) ==> R.Int() == 0
    ensures ret == Success && R != null && Q == A && old(A.Abs()) >= (if b < 0 then -b else b) ==>
              R.Int() == Signed(if b < 0 then -1 else 1, Rem(old(A.Abs()), if b < 0 then -b else b))
  {
    var B := OneLimb(b);
    ret := DivMpi(Q, R, A, B);
  }

  /** The least non-negative remainder, 0 for modulus 0. */
  ghost function Mod(a: int, b: nat): nat {
    if b == 0 then 0 else a % b
  }

  lemma ModOfSigned(s: int, v: nat, b: nat)
    requires b > 0
    ensures s < 0 && Rem(v, b) != 0 ==> Mod(Signed(s, v), b) == b - Rem(v, b)
    ensures s >= 0 || Rem(v, b) == 0 ==> Mod(Signed(s, v), b) == Rem(v, b)
    ensures Rem(v, b) < b
  {
    var q, r := v / b, v % b;
    DivDef(v, b);
    if s >= 0 {
    } else if r == 0 {
      MulSub(0, q, b);
      DivUnique(0 - v, b, 0 - q, 0);
    } else {
      MulSub(0, q + 1, b);
      MulAdd(q, 1, b);
      DivUnique(0 - v, b, 0 - (q + 1), b - r);
    }
  }

  /** mpi_mod_mpi. */
  method ModMpi(R: Mpi, A: Mpi, B: Mpi) returns (ret: Ret)
    requires A.Num() && B.Num() && R != B
    modifies R
    ensures ret == (if B.Int() < 0 then NegativeValue else if B.Int() == 0 then DivisionByZero else Success)
    ensures ret != Success ==> R.p == old(R.p) && R.s == old(R.s)
    ensures ret == Success ==> R.Num() && |R.p| >= old(|R.p|) && R.Int() == Mod(old(A.Int()), B.Abs()) < B.Abs()
  {
    var r := CmpInt(B, 0);
    if r < 0 {
      return NegativeValue;
    }
    ghost var s, v, b := A.s, A.Abs(), B.Abs();
    ret := DivMpi(null, R, A, B);
    if ret != Success {
      return;
    }
    ModOfSigned(s, v, b);
    ModShift(Mod(Signed(s, v), b), b);
    Reduce(R, B, Mod(Signed(s, v), b));
  }

  lemma ModShift(a: int, b: nat)
    requires b > 0
    ensures Mod(a + b, b) == Mod(a, b) && Mod(a - b, b) == Mod(a, b) && 0 <= Mod(a, b) < b
    ensures 0 <= a < b ==> Mod(a, b) == a
  {
    var q, r := a / b, a % b;
    DivDef(a, b);
    MulAdd(q, 1, b);
    MulSub(q, 1, b);
    DivUnique(a + b, b, q + 1, r);
    DivUnique(a - b, b, q - 1, r);
    if 0 <= a < b {
      DivUnique(a, b, 0, a);
    }
  }

  /** The two correction loops that end mpi_mod_mpi and mpi_inv_mod. */
  method Reduce(R: Mpi, B: Mpi, ghost m: nat)
    requires R != B && R.Num() && B.Num() && B.Int() > 0
    requires Mod(R.Int(), B.Abs()) == m
    modifies R
    ensures R.Num() && R.Int() == m < B.Abs() && |R.p| >= old(|R.p|)
  {
    ghost var b := B.Abs();
    ModShift(R.Int(), b);
    var r := CmpInt(R, 0);
    while r < 0
      invariant R.Num() && |R.p| >= old(|R.p|) && r == Sgn(R.Int())
      invariant Mod(R.Int(), b) == m
      decreases -R.Int()
    {
      ModShift(R.Int(), b);
      AddMpi(R, R, B);
      r := CmpInt(R, 0);
    }
    r := CmpMpi(R, B);
    while r >= 0
      invariant R.Num() && |R.p| >= old(|R.p|) && r == Sgn(R.Int() - b)
      invariant R.Int() >= 0 && Mod(R.Int(), b) == m
      decreases R.Int()
    {
      ModShift(R.Int(), b);
      SubMpi(R, R, B);
      r := CmpMpi(R, B);
    }
    ModShift(R.Int(), b);
  }
}
