/** The binary greatest common divisor (HAC 14.54). */
module BinaryGcd {
  import opened Limbs
  import opened Bits
  import opened Mul
  import opened NumberTheory
  import opened BigNum
  import opened Shifts

  /** A power of two is prime to every odd number. */
  lemma {:induction false} PowerOfTwoCoprime(k: nat, n: int)
    requires n % 2 == 1
    ensures IsGcd(1, P2(k), n)
  {
    if k == 0 {
      DividesSelf(n);
      DividesSelf(1);
      assert Combination(1, 0, 1, n, 1);
    } else {
      PowerOfTwoCoprime(k - 1, n);
      OddCoprimeTwo(n);
      CoprimeProduct(2, P2(k - 1), n);
    }
  }

  /** Dividing one side by a power of two keeps an odd greatest common divisor. */
  lemma GcdStrip(g: int, m: nat, k: nat, y: int)
    requires IsGcd(g, P2(k) * m, y) && g % 2 == 1
    ensures IsGcd(g, m, y)
  {
    PowerOfTwoCoprime(k, g);
    CoprimeCancel(P2(k), m, g);
    var u: int, v: int :| Combination(u, v, P2(k) * m, y, g);
    MulAssoc(u, P2(k), m);
    assert Combination(u * P2(k), v, m, y, g);
  }

  /** Subtracting one side from the other and halving keeps an odd greatest common divisor. */
  lemma GcdSubtract(g: int, x: nat, y: nat)
    requires IsGcd(g, x, y) && g % 2 == 1 && x >= y && x % 2 == 1 && y % 2 == 1
    ensures IsGcd(g, (x - y) / 2, y)
  {
    GcdSubtractOnce(g, x, y);
    assert P2(1) * ((x - y) / 2) == x - y;
    GcdStrip(g, (x - y) / 2, 1, y);
  }

  lemma GcdSubtractOnce(g: int, x: int, y: int)
    requires IsGcd(g, x, y)
    ensures IsGcd(g, x - y, y)
  {
    var u: int, v: int :| Combination(u, v, x, y, g);
    DividesAdd(g, x, y);
    MulSub(x, y, u);
    MulAdd(u, v, y);
    assert Combination(u, u + v, x - y, y, g);
  }

  /** Shifting out the trailing zeros leaves the odd part. */
  lemma CtzQuotient(v: nat)
    requires v > 0
    ensures v == P2(Ctz(v)) * (v / P2(Ctz(v)))
    ensures (v / P2(Ctz(v))) % 2 == 1
    ensures 0 < v / P2(Ctz(v)) <= v
  {
    CtzSplits(v);
    var m: nat :| OddPart(v, m, Ctz(v));
    DivUnique(v, P2(Ctz(v)), m, 0);
    MulPos(P2(Ctz(v)), m);
  }

  /** What the main loop keeps.  A zero second operand, which the caller must avoid, stays zero. */
  ghost predicate GcdInv(a: int, b: int, g: int) {
    a >= 0 && b >= 0 && (b > 0 ==> IsGcd(g, a, b) && (a == 0 || g % 2 == 1))
  }

  lemma StripA(a: nat, b: nat, g: int)
    requires GcdInv(a, b, g) && a > 0
    ensures GcdInv(a / P2(Ctz(a)), b, g)
    ensures 0 < a / P2(Ctz(a)) <= a && (a / P2(Ctz(a))) % 2 == 1
  {
    CtzQuotient(a);
    if b > 0 {
      GcdStrip(g, a / P2(Ctz(a)), Ctz(a), b);
    }
  }

  lemma StripB(a: nat, b: nat, g: int)
    requires GcdInv(a, b, g) && a > 0
    ensures GcdInv(a, b / P2(Ctz(b)), g)
    ensures b > 0 ==> 0 < b / P2(Ctz(b)) <= b && (b / P2(Ctz(b))) % 2 == 1
    ensures b == 0 ==> b / P2(Ctz(b)) == 0
  {
    if b > 0 {
      CtzQuotient(b);
      GcdSym(g, a, b);
      GcdStrip(g, b / P2(Ctz(b)), Ctz(b), a);
      GcdSym(g, b / P2(Ctz(b)), a);
    }
  }

  lemma SubtractB(a: nat, b: nat, g: int)
    requires GcdInv(a, b, g) && a > 0 && a % 2 == 1 && (b > 0 ==> b % 2 == 1) && a >= b
    ensures GcdInv((a - b) / P2(1), b, g) && (a - b) / P2(1) < a
  {
    if b > 0 {
      GcdSubtract(g, a, b);
    }
  }

  lemma SubtractA(a: nat, b: nat, g: int)
    requires GcdInv(a, b, g) && a > 0 && a % 2 == 1 && b % 2 == 1 && a < b
    ensures GcdInv(a, (b - a) / P2(1), g) && 0 < (b - a) / P2(1) < b
  {
    GcdSym(g, a, b);
    GcdSubtract(g, b, a);
    GcdSym(g, (b - a) / 2, a);
  }

  /** mpi_shift_r by the number of trailing zeros. */
  method Strip(X: Mpi)
    requires X.Num() && X.s == 1
    modifies X
    ensures X.Num() && X.s == 1 && X.Abs() == old(X.Abs()) / P2(Ctz(old(X.Abs())))
  {
    var k := Lsb(X);
    ShiftR(X, k);
  }

  /** Subtract and halve. */
  method SubtractAndHalve(X: Mpi, Y: Mpi)
    requires X.Num() && Y.Num() && X != Y && Y.Abs() <= X.Abs()
    modifies X
    ensures X.Num() && X.s == 1 && X.Abs() == (old(X.Abs()) - Y.Abs()) / P2(1)
  {
    var ret := SubAbs(X, X, Y);
    ShiftR(X, 1);
  }

  /** The main loop of mpi_gcd. */
  method GcdLoop(TA: Mpi, TB: Mpi, ghost g: int)
    requires TA != TB && TA.Num() && TB.Num() && TA.s == 1 && TB.s == 1
    requires GcdInv(TA.Abs(), TB.Abs(), g)
    modifies TA, TB
    ensures TB.Num() && TB.s == 1
    ensures TB.Abs() == if old(TB.Abs()) > 0 then g else 0
  {
    var r := CmpInt(TA, 0);
    while r != 0
      invariant TA.Num() && TB.Num() && TA.s == 1 && TB.s == 1
      invariant GcdInv(TA.Abs(), TB.Abs(), g) && (TB.Abs() > 0 <==> old(TB.Abs()) > 0)
      invariant r == Sgn(TA.Abs())
      decreases TA.Abs() + TB.Abs()
    {
      GcdStep(TA, TB, g);
      r := CmpInt(TA, 0);
    }
    if TB.Abs() > 0 {
      GcdZero(g, TB.Abs());
    }
  }

  /** One pass: both sides are made odd, then the larger loses the smaller and is halved. */
  method GcdStep(TA: Mpi, TB: Mpi, ghost g: int)
    requires TA != TB && TA.Num() && TB.Num() && TA.s == 1 && TB.s == 1
    requires GcdInv(TA.Abs(), TB.Abs(), g) && TA.Abs() > 0
    modifies TA, TB
    ensures TA.Num() && TB.Num() && TA.s == 1 && TB.s == 1
    ensures GcdInv(TA.Abs(), TB.Abs(), g) && (TB.Abs() > 0 <==> old(TB.Abs()) > 0)
    ensures TA.Abs() + TB.Abs() < old(TA.Abs()) + old(TB.Abs())
  {
    ghost var a := TA.Abs();
    ghost var b := TB.Abs();
    StripA(a, b, g);
    StripB(a / P2(Ctz(a)), b, g);
    Strip(TA);
    Strip(TB);
    a, b := TA.Abs(), TB.Abs();
    var r := CmpMpi(TA, TB);
    if r >= 0 {
      SubtractB(a, b, g);
      SubtractAndHalve(TA, TB);
    } else {
      SubtractA(a, b, g);
      SubtractAndHalve(TB, TA);
    }
  }

  /** The common power of two of two positive numbers. */
  ghost function CommonTwos(a: nat, b: nat): nat {
    if Ctz(b) < Ctz(a) then Ctz(b) else Ctz(a)
  }

  /** Taking the common power of two out of both sides. */
  lemma TakeOutTwos(a: nat, b: nat)
    requires b > 0
    ensures var k := CommonTwos(a, b);
      b / P2(k) > 0 && GcdInv(a / P2(k), b / P2(k), Gcd(a / P2(k), b / P2(k)))
    ensures var k := CommonTwos(a, b);
      P2(k) * Gcd(a / P2(k), b / P2(k)) == Gcd(a, b)
  {
    var k := CommonTwos(a, b);
    TwosDivide(a, k);
    TwosDivide(b, k);
    var x, y := a / P2(k), b / P2(k);
    GcdIsGcd(x, y);
    GcdScale(Gcd(x, y), x, y, P2(k));
    GcdIsGcd(a, b);
    GcdUnique(P2(k) * Gcd(x, y), Gcd(a, b), a, b);
    if a > 0 {
      if k == Ctz(a) {
        CtzQuotient(a);
        OddDivisor(Gcd(x, y), x);
      } else {
        CtzQuotient(b);
        OddDivisor(Gcd(x, y), y);
      }
    }
  }

  /** A power of two up to the trailing zeros divides exactly; zero is divided by any. */
  lemma TwosDivide(v: nat, k: nat)
    requires v == 0 || k <= Ctz(v)
    ensures v == P2(k) * (v / P2(k)) && (v > 0 ==> v / P2(k) > 0)
  {
    if v == 0 {
      DivUnique(0, P2(k), 0, 0);
    } else {
      CtzQuotient(v);
      P2Add(k, Ctz(v) - k);
      var m := v / P2(Ctz(v));
      MulAssoc(P2(k), P2(Ctz(v) - k), m);
      MulPos(P2(Ctz(v) - k), m);
      DivUnique(v, P2(k), P2(Ctz(v) - k) * m, 0);
    }
  }

  /** What mpi_gcd returns: the greatest common divisor exactly when B is nonzero or A is zero, else 0. */
  ghost function GcdResult(a: nat, b: nat): (g: nat)
    ensures g == Gcd(a, b) <==> b != 0 || a == 0
  {
    if b == 0 then 0 else Gcd(a, b)
  }

  /** mpi_gcd. */
  method GcdMpi(G: Mpi, A: Mpi, B: Mpi)
    requires A.Num() && B.Num()
    modifies G
    ensures G.Num() && G.s == 1
    ensures G.Abs() == GcdResult(old(A.Abs()), old(B.Abs()))
  {
    var TA := new Mpi();
    var TB := new Mpi();
    Copy(TA, A);
    Copy(TB, B);
    ghost var a, b := A.Abs(), B.Abs();
    var lz := Lsb(TA);
    var lzt := Lsb(TB);
    if lzt < lz {
      lz := lzt;
    }
    GcdStart(a, b);
    ShiftR(TA, lz);
    ShiftR(TB, lz);
    TA.s, TB.s := 1, 1;
    GcdLoop(TA, TB, GcdOdd(a, b));
    ShiftL(TB, lz);
    Copy(G, TB);
  }

  /** The greatest common divisor without its power of two. */
  ghost function GcdOdd(a: nat, b: nat): nat {
    var k := CommonTwos(a, b);
    Gcd(a / P2(k), b / P2(k))
  }

  lemma GcdStart(a: nat, b: nat)
    ensures var k := CommonTwos(a, b);
      GcdInv(a / P2(k), b / P2(k), GcdOdd(a, b)) && (b / P2(k) > 0 <==> b > 0)
      && (b > 0 ==> P2(k) * GcdOdd(a, b) == Gcd(a, b)) && (b == 0 ==> P2(k) * 0 == 0)
  {
    var k := CommonTwos(a, b);
    if b > 0 {
      TakeOutTwos(a, b);
    } else {
      DivUnique(0, P2(k), 0, 0);
      DivDef(a, P2(k));
      DivMono(0, a, P2(k));
    }
  }
}
