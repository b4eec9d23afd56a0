/** Primes, Fermat's little theorem and the Chinese remainder theorem. */
module Primes {
  import opened Mul
  import opened NumberTheory

  ghost predicate Prime(p: int) {
    p >= 2 && forall d: int :: 1 < d < p ==> !Divides(d, p)
  }

  /** A number a prime does not divide is prime to it. */
  lemma PrimeCoprime(p: int, a: int)
    requires Prime(p) && !Divides(p, a)
    ensures IsGcd(1, a, p)
  {
    var r := a % p;
    DivDef(a, p);
    GcdIsGcd(p, r);
    var g := Gcd(p, r);
    DividesLe(g, p);
    if g == p {
      ResidueDivides(p, a);
    }
    GcdReduce(1, a, p, a / p);
  }

  lemma ResidueDivides(p: int, a: int)
    requires p > 0 && Divides(p, a % p)
    ensures Divides(p, a)
  {
    DivDef(a, p);
    DividesBy(a / p, p, (a / p) * p);
    DividesAdd(p, a % p, (a / p) * p);
  }

  // ---------------------------------------------------------------- Fermat

  /** The product of the numbers 1..n that are in s. */
  ghost function ProductIn(s: set<int>, n: nat): int {
    if n == 0 then 1 else (if n in s then n else 1) * ProductIn(s, n - 1)
  }

  lemma {:induction false} ProductInsert(s: set<int>, x: int, n: nat)
    requires 1 <= x && x !in s
    ensures ProductIn(s + {x}, n) == if x <= n then x * ProductIn(s, n) else ProductIn(s, n)
  {
    if n > 0 {
      ProductInsert(s, x, n - 1);
      if x < n && n in s {
        MulSwap(n, x, ProductIn(s, n - 1));
      }
    }
  }

  /** The numbers 1..n. */
  ghost function Range(n: nat): set<int> {
    if n == 0 then {} else Range(n - 1) + {n}
  }

  lemma {:induction false} RangeMembers(n: nat)
    ensures forall x: int :: x in Range(n) <==> 1 <= x <= n
    ensures |Range(n)| == n
  {
    if n > 0 {
      RangeMembers(n - 1);
    }
  }

  /** The residues of a, 2a, ..., ka. */
  ghost function Multiples(a: int, p: int, k: nat): set<int>
    requires p > 0
  {
    if k == 0 then {} else Multiples(a, p, k - 1) + {(a * k) % p}
  }

  lemma {:induction false} MultiplesWitness(a: int, p: int, k: nat, x: int) returns (i: nat)
    requires p > 0 && x in Multiples(a, p, k)
    ensures 1 <= i <= k && x == (a * i) % p
  {
    if x == (a * k) % p {
      i := k;
    } else {
      i := MultiplesWitness(a, p, k - 1, x);
    }
  }

  /** Different multiples below p have different residues, none of them zero. */
  lemma NewMultiple(a: int, p: int, k: nat)
    requires Prime(p) && !Divides(p, a) && 1 <= k < p
    ensures (a * k) % p !in Multiples(a, p, k - 1)
    ensures 1 <= (a * k) % p < p
  {
    PrimeCoprime(p, a);
    var x := (a * k) % p;
    CongModulus(a * k, p);
    if x == 0 {
      CoprimeCancel(a, k, p);
      DividesLe(p, k);
    }
    if x in Multiples(a, p, k - 1) {
      var i := MultiplesWitness(a, p, k - 1, x);
      CongModulus(a * i, p);
      CongTrans(a * k, x, a * i, p);
      CongCancel(a, k, i, p);
      DividesLe(p, k - i);
    }
  }

  lemma {:induction false} MultiplesCount(a: int, p: int, k: nat)
    requires Prime(p) && !Divides(p, a) && k < p
    ensures |Multiples(a, p, k)| == k && Multiples(a, p, k) <= Range(p - 1)
  {
    if k > 0 {
      MultiplesCount(a, p, k - 1);
      NewMultiple(a, p, k);
      RangeMembers(p - 1);
    }
  }

  lemma SameSize(s: set<int>, t: set<int>)
    requires s <= t && |s| == |t|
    ensures s == t
  {
    assert s * t == s;
    assert |t - s| == |t| - |s|;
  }

  ghost function Factorial(n: nat): int {
    if n == 0 then 1 else n * Factorial(n - 1)
  }

  lemma {:induction false} FactorialIsProduct(n: nat, m: nat)
    requires n <= m
    ensures ProductIn(Range(m), n) == Factorial(n)
  {
    RangeMembers(m);
    if n > 0 {
      FactorialIsProduct(n - 1, m);
    }
  }

  lemma {:induction false} FactorialCoprime(n: nat, p: int)
    requires Prime(p) && n < p
    ensures IsGcd(1, Factorial(n), p)
  {
    if n == 0 {
      DividesSelf(p);
      DividesSelf(1);
      assert Combination(1, 0, 1, p, 1);
    } else {
      FactorialCoprime(n - 1, p);
      if Divides(p, n) {
        DividesLe(p, n);
      }
      PrimeCoprime(p, n);
      CoprimeProduct(n, Factorial(n - 1), p);
    }
  }

  /** The product of the residues is a^k k! modulo p. */
  lemma {:induction false} MultiplesProduct(a: int, p: int, k: nat)
    requires Prime(p) && !Divides(p, a) && k < p
    ensures Cong(ProductIn(Multiples(a, p, k), p - 1), Pow(a, k) * Factorial(k), p)
  {
    if k == 0 {
      EmptyProduct(p - 1);
      CongRefl(1, p);
    } else {
      MultiplesProduct(a, p, k - 1);
      NewMultiple(a, p, k);
      var x, s := (a * k) % p, Multiples(a, p, k - 1);
      ProductInsert(s, x, p - 1);
      CongModulus(a * k, p);
      CongMul2(x, a * k, ProductIn(s, p - 1), Pow(a, k - 1) * Factorial(k - 1), p);
      Regroup(a, k, Pow(a, k - 1), Factorial(k - 1));
    }
  }

  lemma {:induction false} EmptyProduct(n: nat)
    ensures ProductIn({}, n) == 1
  {
    if n > 0 {
      EmptyProduct(n - 1);
    }
  }

  lemma Regroup(a: int, k: int, x: int, f: int)
    ensures (a * k) * (x * f) == (a * x) * (k * f)
  {
    MulAssoc(a, k, x * f);
    MulSwap(k, x, f);
    MulAssoc(a, x, k * f);
  }

  /** The residues of a, 2a, ..., (p-1)a are 1, ..., p-1 in another order. */
  lemma ResiduesPermuted(a: int, p: int)
    requires Prime(p) && !Divides(p, a)
    ensures ProductIn(Multiples(a, p, p - 1), p - 1) == Factorial(p - 1)
  {
    MultiplesCount(a, p, p - 1);
    RangeMembers(p - 1);
    SameSize(Multiples(a, p, p - 1), Range(p - 1));
    FactorialIsProduct(p - 1, p - 1);
  }

  lemma CancelFactor(f: int, x: int, p: int)
    requires Cong(f, x * f, p) && IsGcd(1, f, p)
    ensures Cong(x, 1, p)
  {
    CongSym(f, x * f, p);
    CongCancel(f, x, 1, p);
  }

  /** Fermat's little theorem. */
  lemma Fermat(a: int, p: int)
    requires Prime(p) && !Divides(p, a)
    ensures Cong(Pow(a, p - 1), 1, p)
  {
    ResiduesPermuted(a, p);
    MultiplesProduct(a, p, p - 1);
    FactorialCoprime(p - 1, p);
    CancelFactor(Factorial(p - 1), Pow(a, p - 1), p);
  }

  /** Exponents that agree modulo p - 1 and are positive give the same power modulo p, for every base. */
  lemma ExponentReduces(a: int, p: int, e: nat, k: nat)
    requires Prime(p) && e >= 1
    ensures k * (p - 1) >= 0 && Cong(Pow(a, e + k * (p - 1)), Pow(a, e), p)
  {
    MulNonNeg(k, p - 1);
    PowAdd(a, e, k * (p - 1));
    if Divides(p, a) {
      PowDivisible(a, p, e);
      BothDivisible(Pow(a, e), Pow(a, k * (p - 1)), p);
    } else {
      WholePeriods(a, p, k);
      CongMul(Pow(a, k * (p - 1)), 1, Pow(a, e), p);
    }
  }

  lemma BothDivisible(x: int, y: int, p: int)
    requires Divides(p, x)
    ensures Cong(x * y, x, p)
  {
    DividesMul(p, x, y);
    DividesAdd(p, y * x, x);
  }

  lemma WholePeriods(a: int, p: int, k: nat)
    requires Prime(p) && !Divides(p, a)
    ensures k * (p - 1) >= 0 && Cong(Pow(a, k * (p - 1)), 1, p)
  {
    Fermat(a, p);
    PowOfOne(a, p - 1, k, p);
  }

  lemma PowOfOne(a: int, m: nat, k: nat, p: int)
    requires Cong(Pow(a, m), 1, p)
    ensures k * m >= 0 && Cong(Pow(a, k * m), 1, p)
  {
    PowMul(a, m, k);
    PowCong(Pow(a, m), 1, k, p);
    PowOne(k);
    assert m * k == k * m;
  }

  lemma PowDivisible(a: int, p: int, e: nat)
    requires Divides(p, a) && e >= 1
    ensures Divides(p, Pow(a, e))
  {
    DividesMul(p, a, Pow(a, e - 1));
  }

  /** A prime divides a power exactly when it divides the base of a positive power. */
  lemma {:induction false} PrimeDividesPower(p: int, a: int, e: nat)
    requires Prime(p)
    ensures Divides(p, Pow(a, e)) <==> e >= 1 && Divides(p, a)
  {
    if e == 0 {
      if Divides(p, 1) {
        DividesLe(p, 1);
      }
    } else if Divides(p, a) {
      PowDivisible(a, p, e);
    } else if Divides(p, Pow(a, e)) {
      PrimeCoprime(p, a);
      CoprimeCancel(a, Pow(a, e - 1), p);
      PrimeDividesPower(p, a, e - 1);
    }
  }

  // ---------------------------------------------------------------- Chinese remainders

  /** Congruent modulo two coprime numbers means congruent modulo their product. */
  lemma CongProduct(a: int, b: int, p: int, q: int)
    requires Cong(a, b, p) && Cong(a, b, q) && IsGcd(1, p, q)
    ensures Cong(a, b, p * q)
  {
    var k := Quotient(p, a - b);
    CoprimeCancel(p, k, q);
    var l := Quotient(q, k);
    MulAssoc(l, q, p);
    DividesBy(l, p * q, a - b);
  }
}
