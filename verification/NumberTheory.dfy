/** Divisibility, congruence, greatest common divisors and powers. */
module NumberTheory {
  import opened Mul

  /** n is k times d. */
  ghost predicate Times(k: int, d: int, n: int) {
    n == k * d
  }

  ghost predicate Divides(d: int, n: int) {
    exists k: int :: Times(k, d, n)
  }

  ghost predicate Cong(a: int, b: int, n: int) {
    Divides(n, a - b)
  }

  lemma DividesBy(k: int, d: int, n: int)
    requires n == k * d
    ensures Divides(d, n)
  {
    assert Times(k, d, n);
  }

  lemma Quotient(d: int, n: int) returns (k: int)
    requires Divides(d, n)
    ensures n == k * d
  {
    k :| Times(k, d, n);
  }

  lemma DividesAdd(d: int, a: int, b: int)
    requires Divides(d, a) && Divides(d, b)
    ensures Divides(d, a + b) && Divides(d, a - b)
  {
    var k := Quotient(d, a);
    var l := Quotient(d, b);
    MulAdd(k, l, d);
    MulSub(k, l, d);
    DividesBy(k + l, d, a + b);
    DividesBy(k - l, d, a - b);
  }

  lemma DividesMul(d: int, a: int, c: int)
    requires Divides(d, a)
    ensures Divides(d, c * a)
  {
    var k := Quotient(d, a);
    MulAssoc(c, k, d);
    DividesBy(c * k, d, c * a);
  }

  lemma DividesTrans(d: int, e: int, n: int)
    requires Divides(d, e) && Divides(e, n)
    ensures Divides(d, n)
  {
    var k := Quotient(e, n);
    DividesMul(d, e, k);
  }

  lemma DividesSelf(d: int)
    ensures Divides(d, d) && Divides(d, 0) && Divides(1, d)
  {
    DividesBy(1, d, d);
    DividesBy(0, d, 0);
    DividesBy(d, 1, d);
  }

  /** A divisor of a positive number does not exceed it. */
  lemma DividesLe(d: int, n: int)
    requires Divides(d, n) && n > 0 && d >= 0
    ensures 0 < d <= n
  {
    var k := Quotient(d, n);
    if d == 0 {
      assert false;
    } else if k <= 0 {
      MulLe(k, 0, d);
    } else {
      MulLe(1, k, d);
    }
  }

  lemma DividesAntisym(a: int, b: int)
    requires a >= 0 && b >= 0 && Divides(a, b) && Divides(b, a)
    ensures a == b
  {
    if b > 0 {
      DividesLe(a, b);
      DividesLe(b, a);
    } else {
      var k := Quotient(b, a);
    }
  }

  // ---------------------------------------------------------------- congruence

  lemma CongBy(k: int, a: int, b: int, n: int)
    requires a == b + k * n
    ensures Cong(a, b, n)
  {
    DividesBy(k, n, a - b);
  }

  lemma CongRefl(a: int, n: int)
    ensures Cong(a, a, n)
  {
    DividesSelf(n);
  }

  lemma CongSym(a: int, b: int, n: int)
    requires Cong(a, b, n)
    ensures Cong(b, a, n)
  {
    DividesMul(n, a - b, -1);
  }

  lemma CongTrans(a: int, b: int, c: int, n: int)
    requires Cong(a, b, n) && Cong(b, c, n)
    ensures Cong(a, c, n)
  {
    DividesAdd(n, a - b, b - c);
  }

  lemma CongAdd(a: int, b: int, c: int, d: int, n: int)
    requires Cong(a, b, n) && Cong(c, d, n)
    ensures Cong(a + c, b + d, n) && Cong(a - c, b - d, n)
  {
    DividesAdd(n, a - b, c - d);
    assert (a + c) - (b + d) == (a - b) + (c - d);
    assert (a - c) - (b - d) == (a - b) - (c - d);
  }

  lemma CongMul(a: int, b: int, c: int, n: int)
    requires Cong(a, b, n)
    ensures Cong(c * a, c * b, n) && Cong(a * c, b * c, n)
  {
    DividesMul(n, a - b, c);
    MulSub(a, b, c);
  }

  lemma CongMul2(a: int, b: int, c: int, d: int, n: int)
    requires Cong(a, b, n) && Cong(c, d, n)
    ensures Cong(a * c, b * d, n)
  {
    CongMul(a, b, c, n);
    CongMul(c, d, b, n);
    CongTrans(a * c, b * c, b * d, n);
  }

  /** Two residues in range that are congruent are equal. */
  lemma CongUnique(a: int, b: int, n: int)
    requires 0 <= a < n && 0 <= b < n && Cong(a, b, n)
    ensures a == b
  {
    var k := Quotient(n, a - b);
    if k > 0 {
      MulLe(1, k, n);
    } else if k < 0 {
      MulLe(k, -1, n);
    }
  }

  lemma CongModulus(a: int, n: int)
    requires n > 0
    ensures Cong(a % n, a, n) && Cong(a, a % n, n)
  {
    DivDef(a, n);
    CongBy(a / n, a, a % n, n);
    CongSym(a, a % n, n);
  }

  lemma CongIsMod(a: int, b: int, n: int)
    requires n > 0
    ensures Cong(a, b, n) <==> a % n == b % n
  {
    CongModulus(a, n);
    CongModulus(b, n);
    if Cong(a, b, n) {
      CongTrans(a % n, a, b, n);
      CongTrans(a % n, b, b % n, n);
      CongUnique(a % n, b % n, n);
    } else if a % n == b % n {
      CongTrans(a, a % n, b, n);
    }
  }

  lemma CongDivisor(a: int, b: int, m: int, n: int)
    requires Cong(a, b, n) && Divides(m, n)
    ensures Cong(a, b, m)
  {
    DividesTrans(m, n, a - b);
  }

  // ---------------------------------------------------------------- powers

  ghost function Pow(b: int, e: nat): int {
    if e == 0 then 1 else b * Pow(b, e - 1)
  }

  lemma {:induction false} PowAdd(b: int, i: nat, j: nat)
    ensures Pow(b, i + j) == Pow(b, i) * Pow(b, j)
  {
    if i > 0 {
      PowAdd(b, i - 1, j);
      MulAssoc(b, Pow(b, i - 1), Pow(b, j));
    }
  }

  lemma {:induction false} PowMul(b: int, i: nat, j: nat)
    ensures i * j >= 0 && Pow(b, i * j) == Pow(Pow(b, i), j)
  {
    MulNonNeg(i, j);
    if j > 0 {
      MulSub(j, 1, i);
      PowMul(b, i, j - 1);
      PowAdd(b, i, i * (j - 1));
    }
  }

  lemma {:induction false} PowCong(a: int, b: int, e: nat, n: int)
    requires Cong(a, b, n)
    ensures Cong(Pow(a, e), Pow(b, e), n)
  {
    if e == 0 {
      CongRefl(1, n);
    } else {
      PowCong(a, b, e - 1, n);
      CongMul2(a, b, Pow(a, e - 1), Pow(b, e - 1), n);
    }
  }

  lemma {:induction false} PowNonNeg(b: int, e: nat)
    requires b >= 0
    ensures Pow(b, e) >= 0
    ensures b > 0 ==> Pow(b, e) > 0
  {
    if e > 0 {
      PowNonNeg(b, e - 1);
      MulNonNeg(b, Pow(b, e - 1));
      if b > 0 {
        MulPos(b, Pow(b, e - 1));
      }
    }
  }

  lemma {:induction false} PowOne(e: nat)
    ensures Pow(1, e) == 1
  {
    if e > 0 {
      PowOne(e - 1);
    }
  }

  // ---------------------------------------------------------------- greatest common divisors

  /** g is x times a plus y times b. */
  ghost predicate Combination(x: int, y: int, a: int, b: int, g: int) {
    x * a + y * b == g
  }

  /** g is a non-negative common divisor and a combination, hence the greatest common divisor. */
  ghost predicate IsGcd(g: int, a: int, b: int) {
    g >= 0 && Divides(g, a) && Divides(g, b) && exists x: int, y: int :: Combination(x, y, a, b, g)
  }

  /** Euclid's algorithm, the reference meaning. */
  ghost function Gcd(a: nat, b: nat): nat
    decreases b
  {
    if b == 0 then a else Gcd(b, a % b)
  }

  lemma CombinationDivides(d: int, x: int, y: int, a: int, b: int)
    requires Divides(d, a) && Divides(d, b)
    ensures Divides(d, x * a + y * b)
  {
    DividesMul(d, a, x);
    DividesMul(d, b, y);
    DividesAdd(d, x * a, y * b);
  }

  /** Every common divisor divides the greatest one. */
  lemma GcdGreatest(g: int, a: int, b: int, d: int)
    requires IsGcd(g, a, b) && Divides(d, a) && Divides(d, b)
    ensures Divides(d, g)
  {
    var x: int, y: int :| Combination(x, y, a, b, g);
    CombinationDivides(d, x, y, a, b);
  }

  lemma GcdUnique(g: int, h: int, a: int, b: int)
    requires IsGcd(g, a, b) && IsGcd(h, a, b)
    ensures g == h
  {
    GcdGreatest(g, a, b, h);
    GcdGreatest(h, a, b, g);
    DividesAntisym(g, h);
  }

  /** A combination of b and a - k b is one of a and b. */
  lemma GcdReduce(g: int, a: int, b: int, k: int)
    requires IsGcd(g, b, a - k * b)
    ensures IsGcd(g, a, b)
  {
    var x: int, y: int :| Combination(x, y, b, a - k * b, g);
    DividesMul(g, b, k);
    DividesAdd(g, a - k * b, k * b);
    MulSub(a, k * b, y);
    MulAssoc(y, k, b);
    MulSub(x, y * k, b);
    assert Combination(y, x - y * k, a, b, g);
  }

  lemma {:induction false} GcdIsGcd(a: nat, b: nat)
    ensures IsGcd(Gcd(a, b), a, b)
    decreases b
  {
    if b == 0 {
      DividesSelf(a);
      assert Combination(1, 0, a, b, a);
    } else {
      GcdIsGcd(b, a % b);
      DivDef(a, b);
      GcdReduce(Gcd(a, b), a, b, a / b);
    }
  }

  lemma GcdZero(g: int, b: int)
    requires IsGcd(g, 0, b) && b >= 0
    ensures g == b
  {
    DividesSelf(b);
    assert Combination(0, 1, 0, b, b);
    assert IsGcd(b, 0, b);
    GcdUnique(g, b, 0, b);
  }

  lemma GcdSym(g: int, a: int, b: int)
    requires IsGcd(g, a, b)
    ensures IsGcd(g, b, a)
  {
    var x: int, y: int :| Combination(x, y, a, b, g);
    assert Combination(y, x, b, a, g);
  }

  lemma GcdScale(g: int, a: int, b: int, c: int)
    requires IsGcd(g, a, b) && c >= 0
    ensures IsGcd(c * g, c * a, c * b)
  {
    var x: int, y: int :| Combination(x, y, a, b, g);
    MulNonNeg(c, g);
    var k := Quotient(g, a);
    var l := Quotient(g, b);
    MulSwap(c, k, g);
    MulSwap(c, l, g);
    DividesBy(k, c * g, c * a);
    DividesBy(l, c * g, c * b);
    MulSwap(x, c, a);
    MulSwap(y, c, b);
    MulAdd(x * a, y * b, c);
    assert Combination(x, y, c * a, c * b, c * g);
  }

  /** A factor prime to the modulus can be cancelled. */
  lemma CoprimeCancel(c: int, a: int, n: int)
    requires IsGcd(1, c, n) && Divides(n, c * a)
    ensures Divides(n, a)
  {
    var x: int, y: int :| Combination(x, y, c, n, 1);
    CancelIdentity(x, y, c, n, a);
    DividesMul(n, c * a, x);
    DividesBy(a * y, n, (a * y) * n);
    DividesAdd(n, x * (c * a), (a * y) * n);
  }

  lemma CancelIdentity(x: int, y: int, c: int, n: int, a: int)
    requires x * c + y * n == 1
    ensures x * (c * a) + (a * y) * n == a
  {
    MulAdd(x * c, y * n, a);
    MulAssoc(x, c, a);
    MulAssoc(a, y, n);
  }

  /** Two factors prime to n have a product prime to n. */
  lemma CoprimeProduct(a: int, b: int, n: int)
    requires IsGcd(1, a, n) && IsGcd(1, b, n)
    ensures IsGcd(1, a * b, n)
  {
    var x: int, y: int :| Combination(x, y, a, n, 1);
    var u: int, v: int :| Combination(u, v, b, n, 1);
    ProductIdentity(x, y, u, v, a, b, n);
    assert Combination(x * u, (x * a) * v + y, a * b, n, 1);
    DividesSelf(a * b);
    DividesSelf(n);
  }

  lemma ProductIdentity(x: int, y: int, u: int, v: int, a: int, b: int, n: int)
    requires x * a + y * n == 1 && u * b + v * n == 1
    ensures (x * u) * (a * b) + ((x * a) * v + y) * n == 1
  {
    MulAdd(u * b, v * n, x * a);
    MulAssoc(x * a, v, n);
    MulAdd((x * a) * v, y, n);
    assert (x * a) * (u * b) == (x * u) * (a * b) by {
      MulAssoc(x * a, u, b);
      MulAssoc(x, a, u);
      MulAssoc(x, u, a);
      MulAssoc(x * u, a, b);
    }
  }

  /** A common divisor of an odd number is odd. */
  lemma OddDivisor(d: int, n: int)
    requires Divides(d, n) && n % 2 == 1
    ensures d % 2 == 1
  {
    var k := Quotient(d, n);
    if d % 2 == 0 {
      MulAssoc(k, d / 2, 2);
    }
  }

  lemma OddCoprimeTwo(n: int)
    requires n % 2 == 1
    ensures IsGcd(1, 2, n)
  {
    DividesSelf(2);
    DividesSelf(n);
    assert Combination(-(n / 2), 1, 2, n, 1);
  }

  lemma CongCancel(c: int, a: int, b: int, n: int)
    requires IsGcd(1, c, n) && Cong(c * a, c * b, n)
    ensures Cong(a, b, n)
  {
    MulSub(a, b, c);
    CoprimeCancel(c, a - b, n);
  }
}
