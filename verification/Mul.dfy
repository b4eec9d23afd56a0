/** Products of unknowns, one small fact at a time. */
module Mul {

  lemma MulAssoc(a: int, b: int, c: int)
    ensures a * (b * c) == (a * b) * c
  {
  }

  lemma MulSwap(a: int, b: int, c: int)
    ensures a * (b * c) == b * (a * c)
  {
  }

  lemma MulAdd(a: int, b: int, c: int)
    ensures (a + b) * c == a * c + b * c
    ensures c * (a + b) == c * a + c * b
  {
  }

  lemma MulSub(a: int, b: int, c: int)
    ensures (a - b) * c == a * c - b * c
    ensures c * (a - b) == c * a - c * b
  {
  }

  lemma MulLe(a: int, b: int, c: int)
    requires a <= b && 0 <= c
    ensures a * c <= b * c
    ensures c * a <= c * b
  {
  }

  lemma MulLt(a: int, b: int, c: int)
    requires a < b && 0 < c
    ensures a * c < b * c
    ensures c * a < c * b
  {
  }

  lemma MulNonNeg(a: int, b: int)
    requires 0 <= a && 0 <= b
    ensures 0 <= a * b
  {
  }

  lemma MulPos(a: int, b: int)
    requires 0 < a && 0 < b
    ensures 0 < a * b
    ensures a <= a * b && b <= a * b
  {
  }

  /** Quotient and remainder are determined. */
  lemma DivUnique(x: int, d: int, q: int, r: int)
    requires 0 <= r < d && x == q * d + r
    ensures q == x / d && r == x % d
  {
    var q', r' := x / d, x % d;
    DivDef(x, d);
    MulSub(q, q', d);
    if q > q' {
      MulLe(1, q - q', d);
    } else if q < q' {
      MulLe(q - q', -1, d);
    }
  }

  lemma DivDef(x: int, d: int)
    requires d > 0
    ensures x == (x / d) * d + x % d && 0 <= x % d < d
  {
  }

  /** Dividing in two steps. */
  lemma DivDiv(x: int, a: int, b: int)
    requires a > 0 && b > 0
    ensures a * b > 0 && x / (a * b) == (x / a) / b
  {
    var q, r := x / a, x % a;
    var q2, r2 := q / b, q % b;
    DivDef(x, a);
    DivDef(q, b);
    MulPos(a, b);
    DivDivStep(x, a, b, q, r, q2, r2);
    DivUnique(x, a * b, q2, r2 * a + r);
  }

  lemma DivDivStep(x: int, a: int, b: int, q: int, r: int, q2: int, r2: int)
    requires x == q * a + r && q == q2 * b + r2
    requires 0 <= r < a && 0 <= r2 < b
    ensures x == q2 * (a * b) + (r2 * a + r)
    ensures 0 <= r2 * a + r < a * b
  {
    MulAdd(q2 * b, r2, a);
    MulAssoc(q2, b, a);
    MulLe(r2, b - 1, a);
    MulSub(b, 1, a);
    MulNonNeg(r2, a);
  }

  /** A floor division is a lower bound with room below the next multiple. */
  lemma DivBounds(x: int, d: int)
    requires d > 0
    ensures (x / d) * d <= x < (x / d + 1) * d
  {
    DivDef(x, d);
    MulAdd(x / d, 1, d);
  }

  lemma DivMono(x: int, y: int, d: int)
    requires x <= y && d > 0
    ensures x / d <= y / d
  {
    DivDef(x, d);
    DivDef(y, d);
    if x / d > y / d {
      MulLe(y / d + 1, x / d, d);
      MulAdd(y / d, 1, d);
    }
  }
}
