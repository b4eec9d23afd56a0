/** The integers of an RSA key, what the private key check accepts, and why the CRT path is right
    (section 5.1.2 of RFC 8017). */
module RsaMath {
  import opened Mul
  import opened NumberTheory
  import opened Primes
  import opened Division

  /** The least common multiple of P - 1 and Q - 1 as the key check computes it. */
  ghost function Lambda(p: int, q: int): nat
    requires p >= 2 && q >= 2
  {
    MulNonNeg(p - 1, q - 1);
    Quo((p - 1) * (q - 1), Gcd(p - 1, q - 1))
  }

  /** The relations between the parts of a private key that rsa_check_privkey tests. */
  ghost predicate KeyRelations(n: int, e: int, d: int, p: int, q: int, dp: int, dq: int, qp: int) {
    && p >= 2 && q >= 2 && n == p * q
    && dp == Mod(d, p - 1) && dq == Mod(d, q - 1)
    && 1 <= qp < p && Mod(q * qp, p) == 1
    && Mod(d * e, Lambda(p, q)) == 1
  }

  /** A quotient by a common divisor of the factors is a multiple of either factor. */
  lemma LambdaMultiple(p: int, q: int)
    requires p >= 2 && q >= 2
    ensures Divides(p - 1, Lambda(p, q)) && Divides(q - 1, Lambda(p, q)) && Lambda(p, q) > 0
  {
    var g := Gcd(p - 1, q - 1);
    GcdIsGcd(p - 1, q - 1);
    DividesLe(g, p - 1);
    var u := Quotient(g, q - 1);
    var v := Quotient(g, p - 1);
    MulAssoc(p - 1, u, g);
    MulAssoc(q - 1, v, g);
    DivUnique((p - 1) * (q - 1), g, (p - 1) * u, 0);
    DivUnique((p - 1) * (q - 1), g, (q - 1) * v, 0);
    DividesBy(u, p - 1, (p - 1) * u);
    DividesBy(v, q - 1, (q - 1) * v);
    PositiveFactor(u, g, q - 1);
    MulPos(p - 1, u);
  }

  lemma PositiveFactor(u: int, g: int, x: int)
    requires x == u * g && g > 0 && x > 0
    ensures u > 0
  {
    if u <= 0 {
      MulLe(u, 0, g);
    }
  }

  /** D E is 1 modulo P - 1 and modulo Q - 1. */
  lemma ExponentsInverse(d: int, e: int, p: int, q: int)
    requires p >= 2 && q >= 2 && Mod(d * e, Lambda(p, q)) == 1
    ensures Cong(d * e, 1, p - 1) && Cong(d * e, 1, q - 1)
  {
    LambdaMultiple(p, q);
    CongModulus(d * e, Lambda(p, q));
    CongDivisor(d * e, 1, p - 1, Lambda(p, q));
    CongDivisor(d * e, 1, q - 1, Lambda(p, q));
  }

  /** The private exponent modulo an odd prime minus one is positive, and still inverse to E. */
  lemma ReducedExponent(d: int, e: int, m: int, dm: int)
    requires m >= 2 && Cong(d * e, 1, m) && dm == Mod(d, m)
    ensures dm >= 1 && Cong(d, dm, m) && Cong(dm * e, 1, m)
  {
    CongModulus(d, m);
    CongMul(dm, d, e, m);
    CongTrans(dm * e, d * e, 1, m);
    DivDef(d, m);
    if dm == 0 {
      CongSym(0, 1, m);
      DividesLe(m, 1);
    }
  }

  /** m1 and m2 combined by Garner's formula. */
  ghost function Garner(m1: int, m2: int, p: nat, q: int, qp: int): int {
    m2 + Mod((m1 - m2) * qp, p) * q
  }

  /** What the CRT path of rsa_private computes. */
  ghost function CrtResult(x: int, p: nat, q: nat, dp: nat, dq: nat, qp: int): int {
    Garner(Mod(Pow(x, dp), p), Mod(Pow(x, dq), q), p, q, qp)
  }

  /** Garner's formula gives the right residues and stays below P Q. */
  lemma GarnerRight(m1: int, m2: int, p: nat, q: nat, qp: int)
    requires p > 0 && 0 <= m2 < q && Cong(q * qp, 1, p)
    ensures Cong(Garner(m1, m2, p, q, qp), m1, p) && Cong(Garner(m1, m2, p, q, qp), m2, q)
    ensures 0 <= Garner(m1, m2, p, q, qp) < p * q
  {
    var c := (m1 - m2) * qp;
    var h := Mod(c, p);
    DivDef(c, p);
    CongBy(h, m2 + h * q, m2, q);
    MulNonNeg(h, q);
    MulLe(h, p - 1, q);
    MulSub(p, 1, q);
    CongModulus(c, p);
    CongMul(h, c, q, p);
    CongMul(q * qp, 1, m1 - m2, p);
    GarnerFactors(m1 - m2, qp, q);
    CongTrans(h * q, (m1 - m2) * (q * qp), m1 - m2, p);
    CongRefl(m2, p);
    CongAdd(m2, m2, h * q, m1 - m2, p);
  }

  lemma GarnerFactors(x: int, y: int, q: int)
    ensures (x * y) * q == x * (q * y)
  {
    MulAssoc(x, y, q);
  }

  /** The residues of the CRT result. */
  lemma CrtParts(x: int, p: nat, q: nat, dp: nat, dq: nat, qp: int)
    requires p > 0 && q > 0 && Cong(q * qp, 1, p)
    ensures Cong(CrtResult(x, p, q, dp, dq, qp), Pow(x, dp), p)
    ensures Cong(CrtResult(x, p, q, dp, dq, qp), Pow(x, dq), q)
    ensures 0 <= CrtResult(x, p, q, dp, dq, qp) < p * q
  {
    var m1, m2 := Mod(Pow(x, dp), p), Mod(Pow(x, dq), q);
    DivDef(Pow(x, dq), q);
    GarnerRight(m1, m2, p, q, qp);
    CongModulus(Pow(x, dp), p);
    CongModulus(Pow(x, dq), q);
    CongTrans(CrtResult(x, p, q, dp, dq, qp), m1, Pow(x, dp), p);
    CongTrans(CrtResult(x, p, q, dp, dq, qp), m2, Pow(x, dq), q);
  }

  /** The inverse of Q modulo P makes the primes coprime. */
  lemma FactorsCoprime(p: int, q: int, qp: int)
    requires Cong(q * qp, 1, p)
    ensures IsGcd(1, p, q)
  {
    var k := Quotient(p, q * qp - 1);
    DividesSelf(p);
    DividesSelf(q);
    assert Combination(-k, qp, p, q, 1) by {
      MulSub(0, k, p);
    }
  }

  /** Two congruent exponents, both positive, one at least the other or not: the same power modulo a prime. */
  lemma CongruentExponents(x: int, p: int, e: nat, f: nat)
    requires Prime(p) && e >= 1 && f >= 1 && Cong(e, f, p - 1)
    ensures Cong(Pow(x, e), Pow(x, f), p)
  {
    var k := Quotient(p - 1, e - f);
    if k >= 0 {
      ExponentReduces(x, p, f, k);
    } else {
      MulSub(0, k, p - 1);
      ExponentReduces(x, p, e, -k);
      CongSym(Pow(x, f), Pow(x, e), p);
    }
  }

  /** The key's primes are odd because the modulus is. */
  lemma OddFactors(n: int, p: int, q: int)
    requires n == p * q && n % 2 == 1
    ensures p % 2 == 1 && q % 2 == 1
  {
    if p % 2 == 0 {
      MulAssoc(2, p / 2, q);
      EvenNumber(n, (p / 2) * q);
    }
    if q % 2 == 0 {
      MulAssoc(2, q / 2, p);
      EvenNumber(n, (q / 2) * p);
    }
  }

  lemma EvenNumber(n: int, h: int)
    requires n == 2 * h
    ensures n % 2 == 0
  {
  }

  /** The CRT path gives the plain power: output = input^D mod N for every input. */
  lemma CrtIsPower(x: nat, n: int, e: int, d: nat, p: int, q: int, dp: int, dq: int, qp: int)
    requires KeyRelations(n, e, d, p, q, dp, dq, qp) && Prime(p) && Prime(q) && n % 2 == 1
    ensures dp >= 1 && dq >= 1 && CrtResult(x, p, q, dp, dq, qp) == Mod(Pow(x, d), n)
  {
    OddFactors(n, p, q);
    ExponentsInverse(d, e, p, q);
    ReducedExponent(d, e, p - 1, dp);
    ReducedExponent(d, e, q - 1, dq);
    PositiveExponent(d, e, p - 1);
    InverseOfQ(p, q, qp);
    CrtParts(x, p, q, dp, dq, qp);
    var y := CrtResult(x, p, q, dp, dq, qp);
    CongruentExponents(x, p, d, dp);
    CongruentExponents(x, q, d, dq);
    CongSym(Pow(x, d), Pow(x, dp), p);
    CongSym(Pow(x, d), Pow(x, dq), q);
    CongTrans(y, Pow(x, dp), Pow(x, d), p);
    CongTrans(y, Pow(x, dq), Pow(x, d), q);
    CongProduct(y, Pow(x, d), p, q);
    CongIsMod(y, Pow(x, d), n);
    DivUnique(y, n, 0, y);
  }

  lemma PositiveExponent(d: nat, e: int, m: int)
    requires m >= 2 && Cong(d * e, 1, m)
    ensures d >= 1
  {
    if d == 0 {
      CongSym(0, 1, m);
      DividesLe(m, 1);
    }
  }

  /** Raising to inverse exponents one after the other gives the base back, modulo one prime. */
  lemma InverseExponents(x: int, y: int, p: int, dp: nat, e: nat)
    requires Prime(p) && dp >= 1 && e >= 1 && Cong(dp * e, 1, p - 1)
    ensures Cong(y, Pow(x, dp), p) ==> Cong(Pow(y, e), x, p)
    ensures Cong(y, Pow(x, e), p) ==> Cong(Pow(y, dp), x, p)
  {
    MulPos(dp, e);
    CongruentExponents(x, p, dp * e, 1);
    assert Pow(x, 1) == x * Pow(x, 0) == x;
    if Cong(y, Pow(x, dp), p) {
      PowMul(x, dp, e);
      PowCong(y, Pow(x, dp), e, p);
      CongTrans(Pow(y, e), Pow(x, dp * e), x, p);
    }
    if Cong(y, Pow(x, e), p) {
      PowMul(x, e, dp);
      PowCong(y, Pow(x, e), dp, p);
      CongTrans(Pow(y, dp), Pow(x, e * dp), x, p);
    }
  }

  /** What an accepted key says about its exponents, one prime at a time. */
  lemma KeyExponents(n: int, e: int, d: int, p: int, q: int, dp: int, dq: int, qp: int)
    requires KeyRelations(n, e, d, p, q, dp, dq, qp) && n % 2 == 1 && e >= 0
    ensures dp >= 1 && dq >= 1 && e >= 1 && Cong(dp * e, 1, p - 1) && Cong(dq * e, 1, q - 1)
    ensures Cong(q * qp, 1, p) && IsGcd(1, p, q)
  {
    OddFactors(n, p, q);
    ExponentsInverse(d, e, p, q);
    ReducedExponent(d, e, p - 1, dp);
    ReducedExponent(d, e, q - 1, dq);
    PublicExponentPositive(d, e, p - 1);
    InverseOfQ(p, q, qp);
  }

  lemma PublicExponentPositive(d: int, e: nat, m: int)
    requires m >= 2 && Cong(d * e, 1, m)
    ensures e >= 1
  {
    if e == 0 {
      CongSym(0, 1, m);
      DividesLe(m, 1);
    }
  }

  lemma InverseOfQ(p: int, q: int, qp: int)
    requires p >= 2 && Mod(q * qp, p) == 1
    ensures Cong(q * qp, 1, p) && IsGcd(1, p, q)
  {
    CongIsMod(q * qp, 1, p);
    DivUnique(1, p, 0, 1);
    FactorsCoprime(p, q, qp);
  }

  /** Two residues below N that agree modulo both primes are equal. */
  lemma SameResidue(y: int, x: int, n: int, p: int, q: int)
    requires n == p * q && IsGcd(1, p, q) && Cong(y, x, p) && Cong(y, x, q)
    requires 0 <= y < n && 0 <= x < n
    ensures y == x
  {
    CongProduct(y, x, p, q);
    CongUnique(y, x, n);
  }

  /** The public operation undoes the private one. */
  lemma PublicUndoesPrivate(x: nat, n: nat, e: int, d: int, p: int, q: int, dp: int, dq: int, qp: int)
    requires KeyRelations(n, e, d, p, q, dp, dq, qp) && Prime(p) && Prime(q) && n % 2 == 1 && e >= 0 && x < n
    ensures dp >= 0 && dq >= 0 && Mod(Pow(CrtResult(x, p, q, dp, dq, qp), e), n) == x
  {
    KeyExponents(n, e, d, p, q, dp, dq, qp);
    CrtParts(x, p, q, dp, dq, qp);
    var y := CrtResult(x, p, q, dp, dq, qp);
    InverseExponents(x, y, p, dp, e);
    InverseExponents(x, y, q, dq, e);
    ReduceBoth(Pow(y, e), n, p, q);
    var z := Mod(Pow(y, e), n);
    CongTrans(z, Pow(y, e), x, p);
    CongTrans(z, Pow(y, e), x, q);
    SameResidue(z, x, n, p, q);
  }

  lemma ReduceBoth(v: int, n: nat, p: int, q: int)
    requires n > 0 && n == p * q
    ensures Cong(Mod(v, n), v, p) && Cong(Mod(v, n), v, q) && 0 <= Mod(v, n) < n
  {
    DivDef(v, n);
    CongModulus(v, n);
    DividesBy(q, p, n);
    DividesBy(p, q, n);
    CongDivisor(Mod(v, n), v, p, n);
    CongDivisor(Mod(v, n), v, q, n);
  }

  /** The private operation undoes the public one. */
  lemma PrivateUndoesPublic(x: nat, n: nat, e: int, d: int, p: int, q: int, dp: int, dq: int, qp: int)
    requires KeyRelations(n, e, d, p, q, dp, dq, qp) && Prime(p) && Prime(q) && n % 2 == 1 && e >= 0 && x < n
    ensures dp >= 0 && dq >= 0 && CrtResult(Mod(Pow(x, e), n), p, q, dp, dq, qp) == x
  {
    KeyExponents(n, e, d, p, q, dp, dq, qp);
    var y := Mod(Pow(x, e), n);
    ReduceBoth(Pow(x, e), n, p, q);
    CrtParts(y, p, q, dp, dq, qp);
    var z := CrtResult(y, p, q, dp, dq, qp);
    InverseExponents(x, y, p, dp, e);
    InverseExponents(x, y, q, dq, e);
    CongTrans(z, Pow(y, dp), x, p);
    CongTrans(z, Pow(y, dq), x, q);
    SameResidue(z, x, n, p, q);
  }
}
