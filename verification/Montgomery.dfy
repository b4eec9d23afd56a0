/** Montgomery multiplication (HAC 14.36) and its constant. */
module Montgomery {
  import opened Limbs
  import opened Bits
  import opened Mul
  import opened NumberTheory
  import opened BigNum
  import opened Shifts

  function WrapMul(x: int, y: int): Limb {
    (x * y) % 0x1_0000_0000
  }

  /** Unsigned wrap-around is congruence modulo 2^32. */
  lemma WrapCong(x: int)
    ensures Cong(x % 0x1_0000_0000, x, 0x1_0000_0000)
  {
    CongModulus(x, 0x1_0000_0000);
  }

  /** The first guess: an inverse to four bits, whatever the odd limb. */
  function FourBits(m0: Limb): Limb {
    WrapAdd(m0, 8 * (((m0 as int + 2) / 4) % 2))
  }

  lemma FourBitsRight(m0: Limb)
    requires m0 % 2 == 1
    ensures Cong(m0 * FourBits(m0), 1, 16)
  {
    var r := m0 % 16;
    FourBitsLow(m0);
    CongModulus(m0, 16);
    CongMul2(m0, r, FourBits(m0), r + 8 * (((r + 2) / 4) % 2), 16);
    OddResidue(m0);
    FourBitsTable(r);
    CongTrans(m0 * FourBits(m0), r * (r + 8 * (((r + 2) / 4) % 2)), 1, 16);
  }

  lemma OddResidue(m0: int)
    requires m0 % 2 == 1
    ensures (m0 % 16) % 2 == 1
  {
    EvenPlus(m0, 8 * (m0 / 16), m0 % 16);
  }

  lemma EvenPlus(x: int, h: int, y: int)
    requires x == 2 * h + y
    ensures x % 2 == y % 2
  {
  }

  lemma FourBitsLow(m0: Limb)
    ensures var r := m0 % 16; Cong(FourBits(m0), r + 8 * (((r + 2) / 4) % 2), 16)
  {
    var q, r := m0 / 16, m0 % 16;
    DivDef(m0, 16);
    BitTwo(m0, q, r);
    var x := m0 as int + 8 * (((m0 as int + 2) / 4) % 2);
    WrapCong(x);
    DividesBy(0x1000_0000, 16, 0x1_0000_0000);
    CongDivisor(FourBits(m0), x, 16, 0x1_0000_0000);
    CongBy(q, x, r + 8 * (((r + 2) / 4) % 2), 16);
    CongTrans(FourBits(m0), x, r + 8 * (((r + 2) / 4) % 2), 16);
  }

  /** Bit 2 of m0 + 2 depends only on m0 modulo 16. */
  lemma BitTwo(m0: int, q: int, r: int)
    requires m0 == q * 16 + r
    ensures ((m0 + 2) / 4) % 2 == ((r + 2) / 4) % 2
  {
    DivDef(r + 2, 4);
    DivUnique(m0 + 2, 4, 4 * q + (r + 2) / 4, (r + 2) % 4);
    EvenPlus((m0 + 2) / 4, 2 * q, (r + 2) / 4);
  }

  lemma FourBitsTable(r: int)
    requires 0 <= r < 16 && r % 2 == 1
    ensures Cong(r * (r + 8 * (((r + 2) / 4) % 2)), 1, 16)
  {
    var s := r + 8 * (((r + 2) / 4) % 2);
    if r == 1 { CongBy(0, 1 * s, 1, 16); }
    else if r == 3 { CongBy(2, 3 * s, 1, 16); }
    else if r == 5 { CongBy(4, 5 * s, 1, 16); }
    else if r == 7 { CongBy(3, 7 * s, 1, 16); }
    else if r == 9 { CongBy(5, 9 * s, 1, 16); }
    else if r == 11 { CongBy(13, 11 * s, 1, 16); }
    else if r == 13 { CongBy(17, 13 * s, 1, 16); }
    else { CongBy(14, 15 * s, 1, 16); }
  }

  /** One Newton step x (2 - m0 x) with wrap-around. */
  function Newton(m0: Limb, x: Limb): Limb {
    WrapMul(x, WrapSub(2, WrapMul(m0, x)))
  }

  /** A Newton step doubles the number of right bits, up to the word size. */
  lemma NewtonDoubles(m0: Limb, x: Limb, e: int, f: int)
    requires Cong(m0 * x, 1, e)
    requires Divides(f, e * e) && Divides(f, 0x1_0000_0000)
    ensures Cong(m0 * Newton(m0, x), 1, f)
  {
    var y := m0 * x;
    var k := Quotient(e, y - 1);
    NewtonWrap(m0, x);
    CongDivisor(m0 * Newton(m0, x), y * (2 - y), f, 0x1_0000_0000);
    SquareIdentity(y, k, e);
    DividesMul(f, e * e, -(k * k));
    CongTrans(m0 * Newton(m0, x), y * (2 - y), 1, f);
  }

  lemma SquareIdentity(y: int, k: int, e: int)
    requires y - 1 == k * e
    ensures y * (2 - y) - 1 == -(k * k) * (e * e)
  {
    MulSub(2, y, y);
    MulSub(y, 1, y - 1);
    assert y * (2 - y) - 1 == -((y - 1) * (y - 1));
    MulAssoc(k, e, k * e);
    MulSwap(e, k, e);
    MulAssoc(k, k, e * e);
  }

  lemma NewtonWrap(m0: Limb, x: Limb)
    ensures Cong(m0 * Newton(m0, x), (m0 * x) * (2 - m0 * x), 0x1_0000_0000)
  {
    var n := 0x1_0000_0000;
    var y: int := m0 * x;
    var a: int, b: int := WrapMul(m0, x), WrapSub(2, WrapMul(m0, x));
    WrapCong(y);
    WrapCong(2 - a);
    CongRefl(2, n);
    CongAdd(2, 2, a, y, n);
    CongTrans(b, 2 - a, 2 - y, n);
    WrapCong((x as int) * (b as int));
    CongMul(b, 2 - y, x, n);
    CongTrans(Newton(m0, x), (x as int) * (b as int), (x as int) * (2 - y), n);
    CongMul(Newton(m0, x), (x as int) * (2 - y), m0, n);
    MulAssoc(m0 as int, x as int, 2 - y);
  }

  /** mpi_montg_init. */
  method MontgInit(N: Mpi) returns (mm: Limb)
    requires N.Num() && N.p[0] % 2 == 1
    ensures Cong(mm * N.p[0], -1, 0x1_0000_0000)
  {
    var m0 := N.p[0];
    var x := FourBits(m0);
    FourBitsRight(m0);
    DividesBy(1, 256, 16 * 16);
    DividesBy(0x100_0000, 256, 0x1_0000_0000);
    NewtonDoubles(m0, x, 16, 256);
    x := Newton(m0, x);
    DividesBy(1, 0x1_0000, 256 * 256);
    DividesBy(0x1_0000, 0x1_0000, 0x1_0000_0000);
    NewtonDoubles(m0, x, 256, 0x1_0000);
    x := Newton(m0, x);
    DividesBy(1, 0x1_0000_0000, 0x1_0000 * 0x1_0000);
    DividesSelf(0x1_0000_0000);
    NewtonDoubles(m0, x, 0x1_0000, 0x1_0000_0000);
    x := Newton(m0, x);
    mm := WrapSub(0, x);
    NegatedInverse(m0, x);
  }

  lemma NegatedInverse(m0: Limb, x: Limb)
    requires Cong(m0 * x, 1, 0x1_0000_0000)
    ensures Cong(WrapSub(0, x) * m0, -1, 0x1_0000_0000)
  {
    var n := 0x1_0000_0000;
    WrapCong(0 - x);
    CongMul(WrapSub(0, x), 0 - x, m0, n);
    CongMul(m0 * x, 1, -1, n);
    MulSub(0, x, m0);
    CongTrans(WrapSub(0, x) * m0, (0 - x) * m0, -1, n);
  }

  /** What mpi_montmul keeps: the buffer from limb i on, times 2^(32i), is the i low limbs of A times B
      plus a multiple of N, and stays below N + B.  The limbs below i hold the limbs of A already used. */
  ghost predicate Reducing(t: seq<Limb>, a: seq<Limb>, b: nat, n: nat, i: nat) {
    i <= |t| && i <= |a| && t[..i] == a[..i] && Val(t[i..]) < n + b &&
    Cong(Val(t[i..]) * Pw(i), Val(a[..i]) * b, n)
  }

  /** Adding u0 B and u1 N at limb i fits in n + 2 limbs from there. */
  lemma StepRoom(d: nat, b: nat, nn: nat, u0: Limb, u1: Limb, n: nat)
    requires b <= nn < Pw(n) && d < nn + b
    ensures 0 <= u0 * b && 0 <= u1 * nn
    ensures d + u0 * b + u1 * nn < 0x1_0000_0000 * (nn + b) < Pw(n + 2)
  {
    MulLe(u0 as int, 0xFFFF_FFFF, b);
    MulLe(u1 as int, 0xFFFF_FFFF, nn);
    MulNonNeg(u0 as int, b);
    MulNonNeg(u1 as int, nn);
    assert Pw(n + 2) == 0x1_0000_0000 * Pw(n + 1) && Pw(n + 1) == 0x1_0000_0000 * Pw(n);
  }

  /** A value that fits above limb i makes the whole buffer fit below limb i + k. */
  lemma BufferRoom(t: seq<Limb>, i: nat, k: nat, add: nat)
    requires i + k <= |t| && Val(t[i..]) + add < Pw(k)
    ensures Val(t[..i + k]) + add * Pw(i) < Pw(i + k)
    ensures Val(t[..i + k]) == Val(t)
  {
    ValSplit(t, i);
    ValBound(t[..i]);
    PwAdd(i, k);
    MulAdd(Val(t[i..]), add, Pw(i));
    MulLe(Val(t[i..]) + add, Pw(k) - 1, Pw(i));
    MulSub(Pw(k), 1, Pw(i));
    MulNonNeg(add, Pw(i));
    ValLow(t, i + k);
  }

  /** Equal low limbs: a change of the whole by add times 2^(32i) is a change of the upper part by add. */
  lemma UpperPart(t: seq<Limb>, t': seq<Limb>, i: nat, add: nat)
    requires i <= |t| == |t'| && t'[..i] == t[..i]
    requires Val(t') == Val(t) + add * Pw(i)
    ensures Val(t'[i..]) == Val(t[i..]) + add
  {
    ValSplit(t, i);
    ValSplit(t', i);
    EqualFactors(Val(t'[i..]), Val(t[i..]), add, Pw(i));
  }

  lemma EqualFactors(x: int, y: int, add: int, w: int)
    requires w > 0 && w * x == w * y + add * w
    ensures x == y + add
  {
    MulAdd(y, add, w);
    if x < y + add {
      MulLt(x, y + add, w);
    } else if y + add < x {
      MulLt(y + add, x, w);
    }
  }

  /** mpi_mul_hlp on the buffer at limb i, in terms of the part from limb i on. */
  method AddMultiple(T: Mpi, S: Mpi, m: nat, i: nat, u: Limb, ghost k: nat)
    requires T != S && m <= |S.p| && m < k && i + k <= |T.p|
    requires Val(S.p[..m]) == S.Abs() && Val(T.p[i..]) + u * S.Abs() < Pw(k)
    modifies T`p
    ensures |T.p| == old(|T.p|) && T.p[..i] == old(T.p[..i])
    ensures Val(T.p[i..]) == Val(old(T.p)[i..]) + u * S.Abs()
  {
    ghost var t := T.p;
    MulNonNeg(u as int, S.Abs());
    BufferRoom(t, i, k, u * S.Abs());
    MulHlp(m, S, T, i, u, i + k);
    UpperPart(t, T.p, i, u * S.Abs());
  }

  /** The multiple u1 of N that clears the low limb. */
  lemma LowLimbCleared(d0: Limb, u0: Limb, b0: Limb, mm: Limb, n0: Limb)
    requires Cong(mm * n0, -1, 0x1_0000_0000)
    ensures Cong(d0 as int + u0 * b0 + WrapMul(WrapAdd(d0, u0 * b0), mm) * n0, 0, 0x1_0000_0000)
  {
    var m, s := 0x1_0000_0000, d0 as int + u0 * b0;
    var u1 := WrapMul(WrapAdd(d0, u0 * b0), mm);
    WrapCong(s);
    CongMul(WrapAdd(d0, u0 * b0), s, mm as int, m);
    WrapCong(WrapAdd(d0, u0 * b0) * mm);
    CongTrans(u1, WrapAdd(d0, u0 * b0) * mm, s * mm, m);
    CongMul(u1, s * mm, n0 as int, m);
    CongMul(mm * n0, -1, s, m);
    MulAssoc(s, mm as int, n0 as int);
    CongTrans(u1 * n0, s * (mm * n0), s * -1, m);
    CongRefl(s, m);
    CongAdd(s, s, u1 * n0, s * -1, m);
  }

  /** A number is its low limb modulo 2^32. */
  lemma LowLimbCong(p: seq<Limb>)
    requires p != []
    ensures Cong(Val(p), p[0], 0x1_0000_0000)
  {
    CongBy(Val(p[1..]), Val(p), p[0], 0x1_0000_0000);
  }

  /** A multiple of 2^32 has a zero low limb. */
  lemma LowLimbZero(t: seq<Limb>)
    requires t != [] && Cong(Val(t), 0, 0x1_0000_0000)
    ensures t[0] == 0
  {
    LowLimbCong(t);
    CongRefl(0, 0x1_0000_0000);
    ZeroByCong(Val(t), 0, t[0]);
  }

  lemma LowParts(t: seq<Limb>, b: seq<Limb>, nn: seq<Limb>, u0: int, u1: int)
    requires t != [] && b != [] && nn != []
    ensures Cong(Val(t) + u0 * Val(b) + u1 * Val(nn), t[0] as int + u0 * b[0] + u1 * nn[0], 0x1_0000_0000)
  {
    LowLimbCong(t);
    LowLimbCong(b);
    LowLimbCong(nn);
    LowSum(Val(t), t[0], u0, Val(b), b[0], u1, Val(nn), nn[0]);
  }

  /** The multiple of N that clears the low limb of the buffer. */
  method ClearingMultiple(B: Mpi, N: Mpi, mm: Limb, T: Mpi, i: nat, u0: Limb) returns (u: Limb)
    requires i < |T.p| && B.Num() && N.Num() && Cong(mm * N.p[0], -1, 0x1_0000_0000)
    ensures Cong(Val(T.p[i..]) + u0 * B.Abs() + u * N.Abs(), 0, 0x1_0000_0000)
  {
    u := WrapMul(WrapAdd(T.p[i], (u0 as int) * (B.p[0] as int)), mm);
    ClearingWorks(T.p[i..], B.p, N.p, u0, mm);
  }

  lemma ClearingWorks(t: seq<Limb>, b: seq<Limb>, nn: seq<Limb>, u0: Limb, mm: Limb)
    requires t != [] && b != [] && nn != [] && Cong(mm * nn[0], -1, 0x1_0000_0000)
    ensures Cong(Val(t) + u0 * Val(b) + WrapMul(WrapAdd(t[0], u0 * b[0]), mm) * Val(nn), 0, 0x1_0000_0000)
  {
    var u := WrapMul(WrapAdd(t[0], u0 * b[0]), mm);
    LowLimbCleared(t[0], u0, b[0], mm, nn[0]);
    LowParts(t, b, nn, u0, u);
    CongTrans(Val(t) + u0 * Val(b) + u * Val(nn), t[0] as int + u0 * b[0] + u * nn[0], 0, 0x1_0000_0000);
  }

  lemma ZeroByCong(v: int, s: int, x: int)
    requires Cong(v, s, 0x1_0000_0000) && Cong(s, 0, 0x1_0000_0000) && Cong(v, x, 0x1_0000_0000)
    requires 0 <= x < 0x1_0000_0000
    ensures x == 0
  {
    var m := 0x1_0000_0000;
    CongTrans(v, s, 0, m);
    CongSym(v, x, m);
    CongTrans(x, v, 0, m);
    CongUnique(x, 0, m);
  }

  lemma LowSum(t: int, t0: int, u0: int, b: int, b0: int, u1: int, nn: int, n0: int)
    requires Cong(t, t0, 0x1_0000_0000) && Cong(b, b0, 0x1_0000_0000) && Cong(nn, n0, 0x1_0000_0000)
    ensures Cong(t + u0 * b + u1 * nn, t0 + u0 * b0 + u1 * n0, 0x1_0000_0000)
  {
    var m := 0x1_0000_0000;
    CongMul(b, b0, u0, m);
    CongMul(nn, n0, u1, m);
    CongAdd(t, t0, u0 * b, u0 * b0, m);
    CongAdd(t + u0 * b, t0 + u0 * b0, u1 * nn, u1 * n0, m);
  }

  /** One round divides by 2^32 exactly and moves the invariant one limb up. */
  lemma ReduceStep(t: seq<Limb>, t2: seq<Limb>, a: seq<Limb>, b: nat, nn: nat, i: nat, u1: Limb)
    requires i < |a| && i < |t| == |t2| && Reducing(t, a, b, nn, i)
    requires t2[..i] == t[..i] && t2[i] == 0
    requires Val(t2[i..]) == Val(t[i..]) + a[i] * b + u1 * nn
    requires Val(t2[i..]) < 0x1_0000_0000 * (nn + b)
    ensures Reducing(t2[i := a[i]], a, b, nn, i + 1)
  {
    var t3 := t2[i := a[i]];
    assert t2[i..] == [t2[i]] + t2[i + 1..];
    assert t3[i + 1..] == t2[i + 1..];
    assert t3[..i + 1] == a[..i + 1];
    ReduceCong(Val(t[i..]), Val(t3[i + 1..]), a, b, nn, i, u1);
  }

  lemma ReduceCong(d: nat, d3: nat, a: seq<Limb>, b: nat, nn: nat, i: nat, u1: Limb)
    requires i < |a| && Cong(d * Pw(i), Val(a[..i]) * b, nn)
    requires 0x1_0000_0000 * d3 == d + a[i] * b + u1 * nn
    ensures Cong(d3 * Pw(i + 1), Val(a[..i + 1]) * b, nn)
  {
    var w := Pw(i);
    MulAssoc(d3, 0x1_0000_0000, w);
    MulAdd(d + a[i] * b, u1 * nn, w);
    MulAdd(d, a[i] * b, w);
    ValPrefix(a, i);
    MulAdd(Val(a[..i]), a[i] * w, b);
    assert (a[i] * b) * w == (a[i] * w) * b by {
      MulAssoc(a[i] as int, b, w);
      MulAssoc(a[i] as int, w, b);
    }
    MulAssoc(w, u1 as int, nn);
    CongBy(w * u1, (u1 * nn) * w, 0, nn);
    CongRefl((a[i] * b) * w, nn);
    CongAdd(d * w, Val(a[..i]) * b, (a[i] * b) * w, (a[i] * w) * b, nn);
    CongAdd(d * w + (a[i] * b) * w, Val(a[..i + 1]) * b, (u1 * nn) * w, 0, nn);
  }

  /** What one call of mpi_montmul needs.  A and B may be the same number. */
  ghost predicate Ready(A: Mpi, B: Mpi, N: Mpi, mm: Limb, T: Mpi)
    reads A, B, N, T
  {
    && A != T && B != T && N != T && A != N
    && A.Num() && B.Num() && N.Num() && T.Num()
    && |A.p| > |N.p| && |T.p| == 2 * |N.p| + 2
    && A.Abs() < Pw(|N.p|) && B.Abs() <= N.Abs() && N.Abs() > 0
    && Cong(mm * N.p[0], -1, 0x1_0000_0000)
  }

  /** The two calls of mpi_mul_hlp in one round: the low limb ends up zero. */
  method ClearLow(B: Mpi, N: Mpi, mm: Limb, T: Mpi, m: nat, i: nat, u0: Limb) returns (ghost u1: Limb)
    requires B != T && N != T && B.Num() && N.Num()
    requires B.Abs() <= N.Abs() && Cong(mm * N.p[0], -1, 0x1_0000_0000)
    requires i < |N.p| && |T.p| == 2 * |N.p| + 2
    requires m <= |B.p| && m <= |N.p| && Val(B.p[..m]) == B.Abs()
    requires Val(T.p[i..]) < N.Abs() + B.Abs()
    modifies T`p
    ensures |T.p| == old(|T.p|) && T.p[..i] == old(T.p[..i]) && T.p[i] == 0
    ensures Val(T.p[i..]) == Val(old(T.p)[i..]) + u0 * B.Abs() + u1 * N.Abs()
    ensures Val(T.p[i..]) < 0x1_0000_0000 * (N.Abs() + B.Abs())
  {
    var n := |N.p|;
    var u := ClearingMultiple(B, N, mm, T, i, u0);
    ValBound(N.p);
    StepRoom(Val(T.p[i..]), B.Abs(), N.Abs(), u0, u, n);
    assert N.p[..n] == N.p;
    AddMultiple(T, B, m, i, u0, n + 2);
    AddMultiple(T, N, n, i, u, n + 2);
    LowLimbZero(T.p[i..]);
    u1 := u;
  }

  /** One round of the loop of mpi_montmul. */
  method MontRound(A: Mpi, B: Mpi, N: Mpi, mm: Limb, T: Mpi, m: nat, i: nat)
    requires Ready(A, B, N, mm, T) && i < |N.p|
    requires m <= |B.p| && m <= |N.p| && Val(B.p[..m]) == B.Abs()
    requires Reducing(T.p, A.p, B.Abs(), N.Abs(), i)
    modifies T`p
    ensures |T.p| == old(|T.p|)
    ensures Reducing(T.p, A.p, B.Abs(), N.Abs(), i + 1)
  {
    ghost var t := T.p;
    var n := |N.p|;
    var u0 := A.p[i];
    ghost var u1 := ClearLow(B, N, mm, T, m, i, u0);
    ReduceStep(t, T.p, A.p, B.Abs(), N.Abs(), i, u1);
    T.p := T.p[i := u0];
    ValBound(N.p);
    TopAlreadyZero(T.p, i + 1, n, N.Abs() + B.Abs());
    T.p := T.p[i + n + 2 := 0];
  }

  lemma TopAlreadyZero(t: seq<Limb>, i: nat, n: nat, bound: nat)
    requires i + n + 1 < |t| && Val(t[i..]) < bound <= 2 * Pw(n)
    ensures t[i + n + 1] == 0 && t[i + n + 1 := 0] == t
  {
    ValHighZero(t[i..], n + 1);
    assert t[i..][n + 1] == 0;
  }

  /** The final copy and the one subtraction: the result is below N. */
  lemma Reduced(t: seq<Limb>, a: seq<Limb>, b: nat, nn: nat, n: nat)
    requires |t| == 2 * n + 2 && n < |a| && Val(a) < Pw(n) && nn < Pw(n) && b <= nn
    requires Reducing(t, a, b, nn, n)
    ensures Val(t[n..2 * n + 1] + a[n + 1..]) == Val(t[n..]) < nn + b
    ensures Val(t[n..2 * n + 1]) == Val(t[n..])
    ensures Cong(Val(t[n..]) * Pw(n), Val(a) * b, nn)
    ensures Val(t[n..]) <= Val(t)
  {
    ValLow(a, n);
    ValHighZero(a, n);
    var c := t[n..2 * n + 1] + a[n + 1..];
    ValTrim(c, n + 1);
    assert c[..n + 1] == t[n..2 * n + 1];
    ValLow(t[n..], n + 1);
    assert t[n..][..n + 1] == t[n..2 * n + 1];
    ValSplit(t, n);
    MulLe(1, Pw(n), Val(t[n..]));
  }

  lemma SubtractedCong(d: int, w: int, x: int, nn: int)
    requires Cong(d * w, x, nn)
    ensures Cong((d - nn) * w, x, nn)
  {
    MulSub(d, nn, w);
    CongBy(-w, (d - nn) * w, d * w, nn);
    CongTrans((d - nn) * w, d * w, x, nn);
  }

  /** mpi_montmul: A becomes A B / 2^(32n) modulo N.  Neither subtraction lets a borrow leave its buffer. */
  method MontMul(A: Mpi, B: Mpi, N: Mpi, mm: Limb, T: Mpi)
    requires Ready(A, B, N, mm, T)
    modifies A`p, T`p
    ensures |A.p| == old(|A.p|) && |T.p| == old(|T.p|)
    ensures A.Abs() < N.Abs()
    ensures Cong(A.Abs() * Pw(|N.p|), old(A.Abs()) * old(B.Abs()), N.Abs())
  {
    var n := |N.p|;
    var m := if |B.p| < n then |B.p| else n;
    ghost var b := B.Abs();
    T.p := Zeros(|T.p|);
    ValBound(N.p);
    MultiplierFits(B.p, m, n);
    ReducingStart(T.p, A.p, b, N.Abs());
    MontLoop(A, B, N, mm, T, m);
    MontFinish(A, N, T, b);
  }

  /** The loop of mpi_montmul. */
  method MontLoop(A: Mpi, B: Mpi, N: Mpi, mm: Limb, T: Mpi, m: nat)
    requires Ready(A, B, N, mm, T)
    requires m <= |B.p| && m <= |N.p| && Val(B.p[..m]) == B.Abs()
    requires Reducing(T.p, A.p, B.Abs(), N.Abs(), 0)
    modifies T`p
    ensures |T.p| == old(|T.p|)
    ensures Reducing(T.p, A.p, B.Abs(), N.Abs(), |N.p|)
  {
    var i := 0;
    while i < |N.p|
      invariant 0 <= i <= |N.p| && |T.p| == old(|T.p|)
      invariant Reducing(T.p, A.p, B.Abs(), N.Abs(), i)
    {
      MontRound(A, B, N, mm, T, m, i);
      i := i + 1;
    }
  }

  lemma MultiplierFits(b: seq<Limb>, m: nat, n: nat)
    requires m == (if |b| < n then |b| else n) && Val(b) < Pw(n)
    ensures Val(b[..m]) == Val(b)
  {
    if m == |b| {
      assert b[..m] == b;
    } else {
      ValLow(b, n);
    }
  }

  lemma ReducingStart(t: seq<Limb>, a: seq<Limb>, b: nat, nn: nat)
    requires nn > 0 && forall k :: 0 <= k < |t| ==> t[k] == 0
    ensures Reducing(t, a, b, nn, 0)
  {
    assert t[0..] == t && a[..0] == [] && t[..0] == [];
    ValZeros(t);
    CongRefl(0, nn);
  }

  /** The end of mpi_montmul: copy back, then subtract N, or make the dummy subtraction. */
  method MontFinish(A: Mpi, N: Mpi, T: Mpi, ghost b: nat)
    requires A != T && N != T && A != N && A.Num() && N.Num() && T.Num()
    requires |A.p| > |N.p| && |T.p| == 2 * |N.p| + 2 && A.Abs() < Pw(|N.p|) && b <= N.Abs()
    requires Reducing(T.p, A.p, b, N.Abs(), |N.p|)
    modifies A`p, T`p
    ensures |A.p| == old(|A.p|) && |T.p| == old(|T.p|)
    ensures A.Abs() < N.Abs()
    ensures Cong(A.Abs() * Pw(|N.p|), old(A.Abs()) * b, N.Abs())
  {
    var n := |N.p|;
    ghost var x, d := A.Abs() * b, Val(T.p[n..]);
    ValBound(N.p);
    Reduced(T.p, A.p, b, N.Abs(), n);
    assert N.p[..n] == N.p;
    A.p := T.p[n..2 * n + 1] + A.p[n + 1..];
    assert A.p[..n + 1] == T.p[n..2 * n + 1];
    var r := CmpAbs(A, N);
    if r >= 0 {
      SubtractedCong(d, Pw(n), x, N.Abs());
      SubHlp(n, N, A, n + 1);
    } else {
      ValLow(A.p, n);
      assert T.p[..2 * n + 2] == T.p;
      SubHlp(n, A, T, 2 * n + 2);
    }
  }

  /** mpi_montred: multiplication by the one-limb number 1. */
  method MontRed(A: Mpi, N: Mpi, mm: Limb, T: Mpi)
    requires A != T && N != T && A != N && A.Num() && N.Num() && T.Num()
    requires |A.p| > |N.p| && |T.p| == 2 * |N.p| + 2 && A.Abs() < Pw(|N.p|) && N.Abs() > 0
    requires Cong(mm * N.p[0], -1, 0x1_0000_0000)
    modifies A`p, T`p
    ensures |A.p| == old(|A.p|) && |T.p| == old(|T.p|)
    ensures A.Abs() < N.Abs()
    ensures Cong(A.Abs() * Pw(|N.p|), old(A.Abs()), N.Abs())
  {
    var U := OneLimb(1);
    MontMul(A, U, N, mm, T);
  }
}
