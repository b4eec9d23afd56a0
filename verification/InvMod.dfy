/** The modular inverse by the binary extended Euclidean algorithm (HAC 14.61). */
module InvMod {
  import opened Limbs
  import opened Bits
  import opened Mul
  import opened NumberTheory
  import opened BigNum
  import opened Shifts
  import opened Division
  import opened BinaryGcd

  /** t is the combination c1 ta + c2 tb, and prime to the other running value w. */
  ghost predicate Bezout(c1: int, c2: int, ta: int, tb: int, t: int, w: int) {
    Combination(c1, c2, ta, tb, t) && IsGcd(1, t, w)
  }

  /** The low bit of the low limb is the parity. */
  lemma Parity(X: Mpi)
    requires X.Num()
    ensures X.p[0] % 2 == X.Int() % 2
  {
    LowBit(X.p[0], Val(X.p[1..]));
    NegParity(X.Abs());
  }

  lemma LowBit(x: int, v: int)
    ensures (x + 0x1_0000_0000 * v) % 2 == x % 2
  {
    var h := 0x8000_0000 * v;
    assert x + 0x1_0000_0000 * v == x + 2 * h;
  }

  lemma NegParity(v: int)
    ensures (0 - v) % 2 == v % 2
  {
  }

  /** One exact halving of a running value and its two coefficients. */
  lemma HalveStep(c1: int, c2: int, ta: int, tb: int, t: int, w: int)
    requires Bezout(c1, c2, ta, tb, t, w) && t % 2 == 0
    requires ta % 2 == 1 || tb % 2 == 1
    ensures var odd := c1 % 2 != 0 || c2 % 2 != 0;
      var d1, d2 := if odd then c1 + tb else c1, if odd then c2 - ta else c2;
      d1 % 2 == 0 && d2 % 2 == 0 && Bezout(d1 / 2, d2 / 2, ta, tb, t / 2, w)
  {
    var odd := c1 % 2 != 0 || c2 % 2 != 0;
    var d1, d2 := if odd then c1 + tb else c1, if odd then c2 - ta else c2;
    MulAdd(c1, tb, ta);
    MulSub(c2, ta, tb);
    Parities(c1, c2, ta, tb);
    MulAssoc(2, d1 / 2, ta);
    MulAssoc(2, d2 / 2, tb);
    assert Combination(d1 / 2, d2 / 2, ta, tb, t / 2);
    GcdHalve(t, w);
  }

  lemma Parities(c1: int, c2: int, ta: int, tb: int)
    requires (c1 * ta + c2 * tb) % 2 == 0
    requires ta % 2 == 1 || tb % 2 == 1
    ensures c1 % 2 != 0 || c2 % 2 != 0 ==> (c1 + tb) % 2 == 0 && (c2 - ta) % 2 == 0
  {
    ProductParity(c1, ta);
    ProductParity(c2, tb);
    SumParity(c1 * ta, c2 * tb);
    SumParity(c1, tb);
    SumParity(c2, ta);
  }

  lemma SumParity(x: int, y: int)
    ensures (x + y) % 2 == 0 <==> x % 2 == y % 2
    ensures (x - y) % 2 == 0 <==> x % 2 == y % 2
  {
  }

  lemma ProductParity(x: int, y: int)
    ensures x % 2 == 0 ==> (x * y) % 2 == 0
    ensures x % 2 == 1 ==> (x * y) % 2 == y % 2
  {
    var q := x / 2;
    MulAssoc(2, q, y);
    if x % 2 == 0 {
      TwiceEven(x * y, q * y);
    } else {
      MulAdd(2 * q, 1, y);
      TwicePlus(x * y, q * y, y);
    }
  }

  lemma TwiceEven(x: int, h: int)
    requires x == 2 * h
    ensures x % 2 == 0
  {
  }

  lemma TwicePlus(x: int, h: int, y: int)
    requires x == 2 * h + y
    ensures x % 2 == y % 2
  {
  }

  lemma GcdHalve(t: int, w: int)
    requires IsGcd(1, t, w) && t % 2 == 0
    ensures IsGcd(1, t / 2, w)
  {
    var x: int, y: int :| Combination(x, y, t, w, 1);
    MulSwap(x, 2, t / 2);
    MulAssoc(2, x, t / 2);
    DividesSelf(t / 2);
    assert Combination(2 * x, y, t / 2, w, 1);
  }

  /** mpi_shift_r of an even number by one bit is an exact halving, whatever the sign. */
  method HalveExact(X: Mpi)
    requires X.Num() && X.Int() % 2 == 0
    modifies X
    ensures X.Num() && X.Int() == old(X.Int()) / 2
  {
    ShiftR(X, 1);
    assert P2(1) == 2;
  }

  /** One pass of the halving loop. */
  method HalveOnce(T: Mpi, C1: Mpi, C2: Mpi, TA: Mpi, TB: Mpi, ghost w: int)
    requires T.Num() && C1.Num() && C2.Num() && TA.Num() && TB.Num()
    requires T != C1 && T != C2 && T != TA && T != TB && C1 != C2 && C1 != TA && C1 != TB && C2 != TA && C2 != TB
    requires Bezout(C1.Int(), C2.Int(), TA.Int(), TB.Int(), T.Int(), w)
    requires TA.Int() % 2 == 1 || TB.Int() % 2 == 1
    requires T.Int() % 2 == 0
    modifies T, C1, C2
    ensures T.Num() && C1.Num() && C2.Num()
    ensures T.Int() == old(T.Int()) / 2
    ensures Bezout(C1.Int(), C2.Int(), TA.Int(), TB.Int(), T.Int(), w)
  {
    HalveStep(C1.Int(), C2.Int(), TA.Int(), TB.Int(), T.Int(), w);
    HalveExact(T);
    Parity(C1);
    Parity(C2);
    if C1.p[0] % 2 != 0 || C2.p[0] % 2 != 0 {
      AddMpi(C1, C1, TB);
      SubMpi(C2, C2, TA);
    }
    HalveExact(C1);
    HalveExact(C2);
  }

  /** The loop that makes TU (or TV) odd while keeping its combination. */
  method MakeOdd(T: Mpi, C1: Mpi, C2: Mpi, TA: Mpi, TB: Mpi, ghost w: int)
    requires T.Num() && C1.Num() && C2.Num() && TA.Num() && TB.Num()
    requires T != C1 && T != C2 && T != TA && T != TB && C1 != C2 && C1 != TA && C1 != TB && C2 != TA && C2 != TB
    requires Bezout(C1.Int(), C2.Int(), TA.Int(), TB.Int(), T.Int(), w)
    requires TA.Int() % 2 == 1 || TB.Int() % 2 == 1
    requires T.Int() > 0
    modifies T, C1, C2
    ensures T.Num() && C1.Num() && C2.Num()
    ensures 0 < T.Int() <= old(T.Int()) && T.Int() % 2 == 1
    ensures Bezout(C1.Int(), C2.Int(), TA.Int(), TB.Int(), T.Int(), w)
  {
    Parity(T);
    while T.p[0] % 2 == 0
      invariant T.Num() && C1.Num() && C2.Num()
      invariant 0 < T.Int() <= old(T.Int()) && T.p[0] % 2 == T.Int() % 2
      invariant Bezout(C1.Int(), C2.Int(), TA.Int(), TB.Int(), T.Int(), w)
      decreases T.Int()
    {
      HalveOnce(T, C1, C2, TA, TB, w);
      Parity(T);
    }
  }

  /** Subtracting one running value with its coefficients from the other. */
  method SubtractAll(T: Mpi, C1: Mpi, C2: Mpi, S: Mpi, D1: Mpi, D2: Mpi, ghost ta: int, ghost tb: int)
    requires T.Num() && C1.Num() && C2.Num() && S.Num() && D1.Num() && D2.Num()
    requires T != C1 && T != C2 && C1 != C2 && T != S && T != D1 && T != D2
    requires C1 != S && C1 != D1 && C1 != D2 && C2 != S && C2 != D1 && C2 != D2
    requires Bezout(C1.Int(), C2.Int(), ta, tb, T.Int(), S.Int())
    requires Bezout(D1.Int(), D2.Int(), ta, tb, S.Int(), T.Int())
    modifies T, C1, C2
    ensures T.Num() && C1.Num() && C2.Num() && T.Int() == old(T.Int()) - S.Int()
    ensures Bezout(C1.Int(), C2.Int(), ta, tb, T.Int(), S.Int())
    ensures Bezout(D1.Int(), D2.Int(), ta, tb, S.Int(), T.Int())
  {
    BezoutSubtract(C1.Int(), C2.Int(), D1.Int(), D2.Int(), ta, tb, T.Int(), S.Int());
    SubMpi(T, T, S);
    SubMpi(C1, C1, D1);
    SubMpi(C2, C2, D2);
  }

  lemma BezoutSubtract(c1: int, c2: int, d1: int, d2: int, ta: int, tb: int, t: int, s: int)
    requires Bezout(c1, c2, ta, tb, t, s) && Bezout(d1, d2, ta, tb, s, t)
    ensures Bezout(c1 - d1, c2 - d2, ta, tb, t - s, s) && Bezout(d1, d2, ta, tb, s, t - s)
  {
    MulSub(c1, d1, ta);
    MulSub(c2, d2, tb);
    GcdSubtractOnce(1, t, s);
    GcdSym(1, t - s, s);
  }

  /** What the main loop of mpi_inv_mod keeps. */
  ghost predicate Extended(u1: int, u2: int, tu: int, v1: int, v2: int, tv: int, ta: int, tb: int) {
    Bezout(u1, u2, ta, tb, tu, tv) && Bezout(v1, v2, ta, tb, tv, tu) && tu >= 0 && tv > 0
  }

  /** The six numbers of the main loop and its two constants. */
  ghost predicate Eight(U1: Mpi, U2: Mpi, TU: Mpi, V1: Mpi, V2: Mpi, TV: Mpi, TA: Mpi, TB: Mpi) {
    && U1 != U2 && U1 != TU && U1 != V1 && U1 != V2 && U1 != TV && U1 != TA && U1 != TB
    && U2 != TU && U2 != V1 && U2 != V2 && U2 != TV && U2 != TA && U2 != TB
    && TU != V1 && TU != V2 && TU != TV && TU != TA && TU != TB
    && V1 != V2 && V1 != TV && V1 != TA && V1 != TB
    && V2 != TV && V2 != TA && V2 != TB && TV != TA && TV != TB
  }

  ghost predicate AllNum(U1: Mpi, U2: Mpi, TU: Mpi, V1: Mpi, V2: Mpi, TV: Mpi)
    reads U1, U2, TU, V1, V2, TV
  {
    U1.Num() && U2.Num() && TU.Num() && V1.Num() && V2.Num() && TV.Num()
  }

  /** One pass of the do-while loop. */
  method ExtendedStep(U1: Mpi, U2: Mpi, TU: Mpi, V1: Mpi, V2: Mpi, TV: Mpi, TA: Mpi, TB: Mpi)
    requires Eight(U1, U2, TU, V1, V2, TV, TA, TB) && AllNum(U1, U2, TU, V1, V2, TV) && TA.Num() && TB.Num()
    requires TA.Int() % 2 == 1 || TB.Int() % 2 == 1
    requires TU.Int() > 0
    requires Extended(U1.Int(), U2.Int(), TU.Int(), V1.Int(), V2.Int(), TV.Int(), TA.Int(), TB.Int())
    modifies U1, U2, TU, V1, V2, TV
    ensures AllNum(U1, U2, TU, V1, V2, TV)
    ensures Extended(U1.Int(), U2.Int(), TU.Int(), V1.Int(), V2.Int(), TV.Int(), TA.Int(), TB.Int())
    ensures TU.Int() + TV.Int() < old(TU.Int()) + old(TV.Int())
  {
    MakeOdd(TU, U1, U2, TA, TB, TV.Int());
    GcdSym(1, TU.Int(), TV.Int());
    MakeOdd(TV, V1, V2, TA, TB, TU.Int());
    GcdSym(1, TV.Int(), TU.Int());
    var r := CmpMpi(TU, TV);
    if r >= 0 {
      SubtractAll(TU, U1, U2, TV, V1, V2, TA.Int(), TB.Int());
    } else {
      SubtractAll(TV, V1, V2, TU, U1, U2, TA.Int(), TB.Int());
    }
  }

  /** The do-while loop of mpi_inv_mod: at its end V1 is a coefficient of 1. */
  method ExtendedLoop(U1: Mpi, U2: Mpi, TU: Mpi, V1: Mpi, V2: Mpi, TV: Mpi, TA: Mpi, TB: Mpi)
    requires Eight(U1, U2, TU, V1, V2, TV, TA, TB) && AllNum(U1, U2, TU, V1, V2, TV) && TA.Num() && TB.Num()
    requires TA.Int() % 2 == 1 || TB.Int() % 2 == 1
    requires TU.Int() > 0
    requires Extended(U1.Int(), U2.Int(), TU.Int(), V1.Int(), V2.Int(), TV.Int(), TA.Int(), TB.Int())
    modifies U1, U2, TU, V1, V2, TV
    ensures V1.Num() && V2.Num() && Combination(V1.Int(), V2.Int(), TA.Int(), TB.Int(), 1)
  {
    var again := true;
    while again
      invariant AllNum(U1, U2, TU, V1, V2, TV)
      invariant Extended(U1.Int(), U2.Int(), TU.Int(), V1.Int(), V2.Int(), TV.Int(), TA.Int(), TB.Int())
      invariant again <==> TU.Int() > 0
      decreases TU.Int() + TV.Int()
    {
      ExtendedStep(U1, U2, TU, V1, V2, TV, TA, TB);
      var r := CmpInt(TU, 0);
      again := r != 0;
    }
    GcdZero(1, TV.Int());
  }

  /** The residue of a number prime to n is prime to n, and zero only for n = 1. */
  lemma ResidueCoprime(s: int, v: nat, n: nat)
    requires n > 0 && Gcd(v, n) == 1
    ensures IsGcd(1, Mod(Signed(s, v), n), n)
    ensures Mod(Signed(s, v), n) == 0 <==> n == 1
    ensures n % 2 == 0 ==> Mod(Signed(s, v), n) % 2 == 1
  {
    var a := Signed(s, v);
    var m := Mod(a, n);
    GcdIsGcd(v, n);
    GcdNegate(v, n, s);
    DivDef(a, n);
    GcdSym(1, a, n);
    GcdReduceBack(1, a, n, a / n);
    if m == 0 {
      GcdZero(1, n);
    }
    if n % 2 == 0 && m % 2 == 0 {
      DividesBy(m / 2, 2, m);
      DividesBy(n / 2, 2, n);
      GcdGreatest(1, m, n, 2);
      DividesLe(2, 1);
    }
  }

  lemma GcdNegate(v: int, n: int, s: int)
    requires IsGcd(1, v, n) && v >= 0
    ensures IsGcd(1, Signed(s, v), n)
  {
    var x: int, y: int :| Combination(x, y, v, n, 1);
    DividesSelf(Signed(s, v));
    MulSub(0, x, 0 - v);
    assert Combination(if s < 0 then 0 - x else x, y, Signed(s, v), n, 1);
  }

  lemma GcdReduceBack(g: int, a: int, n: int, q: int)
    requires IsGcd(g, n, a)
    ensures IsGcd(g, a - q * n, n)
  {
    var x: int, y: int :| Combination(x, y, n, a, g);
    DividesMul(g, n, q);
    DividesAdd(g, a, q * n);
    MulSub(a, q * n, y);
    MulAssoc(y, q, n);
    MulAdd(x, y * q, n);
    assert Combination(y, x + y * q, a - q * n, n, g);
  }

  /** A coefficient of 1 modulo n is an inverse, and so is its residue. */
  lemma InverseFound(a: int, v1: int, v2: int, n: nat)
    requires n > 1 && Combination(v1, v2, Mod(a, n), n, 1)
    ensures Mod(a * Mod(v1, n), n) == 1 && 1 <= Mod(v1, n) < n
  {
    var m, x := Mod(a, n), Mod(v1, n);
    CongModulus(a, n);
    CongModulus(v1, n);
    CongMul2(a, m, x, v1, n);
    CongBy(-v2, m * v1, 1, n);
    CongTrans(a * x, m * v1, 1, n);
    CongIsMod(a * x, 1, n);
    DivUnique(1, n, 0, 1);
    DivDef(v1, n);
    if x == 0 {
      DivUnique(0, n, 0, 0);
    }
  }

  lemma ExtendedStart(ta: int, tb: int)
    requires IsGcd(1, ta, tb) && ta > 0 && tb > 0
    ensures Extended(1, 0, ta, 0, 1, tb, ta, tb)
  {
    GcdSym(1, ta, tb);
    assert Combination(1, 0, ta, tb, ta) && Combination(0, 1, ta, tb, tb);
  }

  /** The part of mpi_inv_mod after the greatest common divisor has been found to be 1. */
  method InvCoprime(TA: Mpi, TB: Mpi) returns (V1: Mpi)
    requires TA.Num() && TB.Num()
    requires TA.Int() > 0 && TB.Int() > 0 && IsGcd(1, TA.Int(), TB.Int())
    requires TA.Int() % 2 == 1 || TB.Int() % 2 == 1
    ensures fresh(V1) && V1.Num()
    ensures exists v2: int :: Combination(V1.Int(), v2, TA.Int(), TB.Int(), 1)
  {
    var TU := new Mpi();
    var TV := new Mpi();
    var U1 := new Mpi();
    var U2 := new Mpi();
    V1 := new Mpi();
    var V2 := new Mpi();
    ExtendedStart(TA.Int(), TB.Int());
    Copy(TU, TA);
    Copy(TV, TB);
    Lset(U1, 1);
    Lset(U2, 0);
    Lset(V1, 0);
    Lset(V2, 1);
    ExtendedLoop(U1, U2, TU, V1, V2, TV, TA, TB);
  }

  /** A value after some exact halvings. */
  ghost function Halved(t: int, k: nat): int {
    if k == 0 then t else Halved(t, k - 1) / 2
  }

  lemma {:induction false} HalvedZero(k: nat)
    ensures Halved(0, k) == 0
  {
    if k > 0 {
      HalvedZero(k - 1);
    }
  }

  /** `passes` passes of the halving loop over a value that stays even so long. */
  method HalvePasses(T: Mpi, C1: Mpi, C2: Mpi, TA: Mpi, TB: Mpi, passes: nat, ghost w: int)
    requires T.Num() && C1.Num() && C2.Num() && TA.Num() && TB.Num()
    requires T != C1 && T != C2 && T != TA && T != TB && C1 != C2 && C1 != TA && C1 != TB && C2 != TA && C2 != TB
    requires Bezout(C1.Int(), C2.Int(), TA.Int(), TB.Int(), T.Int(), w)
    requires TA.Int() % 2 == 1 || TB.Int() % 2 == 1
    requires forall k :: 0 <= k <= passes ==> Halved(T.Int(), k) % 2 == 0
    modifies T, C1, C2
    ensures T.Num() && T.Int() == Halved(old(T.Int()), passes) && T.p[0] % 2 == 0
  {
    ghost var t := T.Int();
    var i := 0;
    Parity(T);
    assert Halved(t, 0) % 2 == 0;
    while i < passes
      invariant 0 <= i <= passes
      invariant T.Num() && C1.Num() && C2.Num() && T.Int() == Halved(t, i) && T.p[0] % 2 == 0
      invariant Bezout(C1.Int(), C2.Int(), TA.Int(), TB.Int(), T.Int(), w)
    {
      Parity(T);
      HalveOnce(T, C1, C2, TA, TB, w);
      i := i + 1;
      assert Halved(t, i) % 2 == 0;
      Parity(T);
    }
  }

  lemma EuclidStart(ta: int, tb: int)
    requires IsGcd(1, ta, tb)
    ensures Bezout(1, 0, ta, tb, ta, tb)
  {
    assert Combination(1, 0, ta, tb, ta);
  }

  /** The start of the extended Euclid and some passes of its first halving loop. */
  method HalveFrom(TA: Mpi, TB: Mpi, passes: nat) returns (TU: Mpi)
    requires TA.Num() && TB.Num() && IsGcd(1, TA.Int(), TB.Int())
    requires TA.Int() % 2 == 1 || TB.Int() % 2 == 1
    requires forall k :: 0 <= k <= passes ==> Halved(TA.Int(), k) % 2 == 0
    ensures fresh(TU) && TU.Num() && TU.Int() == Halved(TA.Int(), passes) && TU.p[0] % 2 == 0
  {
    EuclidStart(TA.Int(), TB.Int());
    TU := new Mpi();
    var U1 := new Mpi();
    var U2 := new Mpi();
    Copy(TU, TA);
    Lset(U1, 1);
    Lset(U2, 0);
    HalvePasses(TU, U1, U2, TA, TB, passes, TB.Int());
  }

  lemma GcdOne(v: nat)
    ensures Gcd(v, 1) == 1
  {
    GcdIsGcd(v, 1);
    DividesLe(Gcd(v, 1), 1);
  }

  /** Modulo 1 every residue is 0, and halving it never makes it odd. */
  lemma ResidueHalved(s: int, v: nat, n: nat, k: nat)
    requires n == 1
    ensures Gcd(v, n) == 1 && Halved(Mod(Signed(s, v), n), k) == 0
  {
    GcdOne(v);
    ResidueCoprime(s, v, 1);
    HalvedZero(k);
  }

  /**
   * mpi_inv_mod with the modulus 1, for every A: the greatest common divisor is accepted, TU is 0,
   * and after any number of passes of the first halving loop it still is. Its low bit, the test of
   * that loop, never ends it.
   */
  method HalveModuloOne(A: Mpi, N: Mpi, passes: nat) returns (accepted: bool, TU: Mpi)
    requires A.Num() && N.Num() && N.Int() == 1
    ensures accepted && fresh(TU) && TU.Num() && TU.Int() == 0 && TU.p[0] % 2 == 0
  {
    forall k: nat
      ensures Gcd(A.Abs(), N.Abs()) == 1 && Halved(Mod(A.Int(), N.Abs()), k) == 0
    {
      ResidueHalved(A.s, A.Abs(), N.Abs(), k);
    }
    var G := new Mpi();
    GcdMpi(G, A, N);
    var r := CmpInt(G, 1);
    accepted := r == 0;
    ResidueCoprime(A.s, A.Abs(), N.Abs());
    var TA := new Mpi();
    var TB := new Mpi();
    var ret := ModMpi(TA, A, N);
    Copy(TB, N);
    TU := HalveFrom(TA, TB, passes);
  }

  /** mpi_inv_mod.  With N = 1 the first halving loop would not end, see HalveModuloOne. */
  method InvMpi(X: Mpi, A: Mpi, N: Mpi) returns (ret: Ret)
    requires A.Num() && N.Num() && N.Int() != 1
    modifies X
    ensures ret == (if old(N.Int()) <= 0 then BadInputData
                    else if Gcd(old(A.Abs()), old(N.Abs())) != 1 then NotAcceptable
                    else Success)
    ensures ret != Success ==> X.p == old(X.p) && X.s == old(X.s)
    ensures ret == Success ==> X.Num() && 1 <= X.Int() < old(N.Int())
    ensures ret == Success ==> Mod(old(A.Int()) * X.Int(), old(N.Abs())) == 1
  {
    var r := CmpInt(N, 0);
    if r <= 0 {
      return BadInputData;
    }
    var G := new Mpi();
    GcdMpi(G, A, N);
    r := CmpInt(G, 1);
    if r != 0 {
      return NotAcceptable;
    }
    var TA := new Mpi();
    var TB := new Mpi();
    ResidueCoprime(A.s, A.Abs(), N.Abs());
    ret := ModMpi(TA, A, N);
    Copy(TB, N);
    var V1 := InvCoprime(TA, TB);
    InverseFromCoprime(A.Int(), V1.Int(), N.Abs());
    Reduce(V1, N, Mod(V1.Int(), N.Abs()));
    Copy(X, V1);
  }

  lemma InverseFromCoprime(a: int, v1: int, n: nat)
    requires n > 1 && exists v2: int :: Combination(v1, v2, Mod(a, n), n, 1)
    ensures Mod(a * Mod(v1, n), n) == 1 && 1 <= Mod(v1, n) < n
  {
    var v2: int :| Combination(v1, v2, Mod(a, n), n, 1);
    InverseFound(a, v1, v2, n);
  }
}
