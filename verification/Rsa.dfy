/** The RSA key check and the public and private operations on byte strings. */
module Rsa {
  import opened Limbs
  import opened Bits
  import opened Mul
  import opened NumberTheory
  import opened Primes
  import opened BigNum
  import opened Shifts
  import opened Division
  import opened BinaryGcd
  import opened InvMod
  import opened ExpMod
  import opened BinaryIO
  import opened RsaMath

  /** rsa_context.  The last three numbers cache R^2 for the three moduli. */
  class RsaContext {
    var len: nat
    const N: Mpi
    const E: Mpi
    const D: Mpi
    const P: Mpi
    const Q: Mpi
    const DP: Mpi
    const DQ: Mpi
    const QP: Mpi
    const RN: Mpi
    const RP: Mpi
    const RQ: Mpi

    /** rsa_init: eleven empty numbers. */
    constructor ()
      ensures Apart() && len == 0
      ensures N.p == [] && E.p == [] && D.p == [] && P.p == [] && Q.p == [] && DP.p == [] && DQ.p == [] && QP.p == []
      ensures RN.p == [] && RP.p == [] && RQ.p == []
    {
      len := 0;
      N := new Mpi();
      E := new Mpi();
      D := new Mpi();
      P := new Mpi();
      Q := new Mpi();
      DP := new Mpi();
      DQ := new Mpi();
      QP := new Mpi();
      RN := new Mpi();
      RP := new Mpi();
      RQ := new Mpi();
    }

    /** The caches are numbers of their own. */
    ghost predicate Apart() {
      Outside(RN) && Outside(RP) && Outside(RQ) && RN != RP && RN != RQ && RP != RQ
    }

    ghost predicate Outside(R: Mpi) {
      R != N && R != E && R != D && R != P && R != Q && R != DP && R != DQ && R != QP
    }

    ghost predicate Signed()
      reads N, E, D, P, Q, DP, DQ, QP
    {
      && Sign(N.s) && Sign(E.s) && Sign(D.s) && Sign(P.s) && Sign(Q.s) && Sign(DP.s) && Sign(DQ.s) && Sign(QP.s)
    }

    static ghost predicate Sign(s: int) {
      s == 1 || s == -1
    }
  }

  /** A cache is empty or holds the constant of its modulus. */
  ghost predicate CacheOk(R: Mpi, N: Mpi)
    reads R, N
  {
    R.p != [] ==> R.Num() && R.Int() == RSquared(|N.p|, N.Abs())
  }

  /** mpi_size of a value. */
  ghost function ByteLen(v: int): nat {
    if v <= 0 then 0 else (BitLen(v) + 7) / 8
  }

  // ---------------------------------------------------------------- key check

  /** rsa_check_pubkey. */
  method CheckPubkey(ctx: RsaContext) returns (ok: bool)
    ensures ok == PubkeyShape(ctx.N.p, ctx.E.p)
  {
    if ctx.N.p == [] || ctx.E.p == [] {
      return false;
    }
    if ctx.N.p[0] % 2 == 0 || ctx.E.p[0] % 2 == 0 {
      return false;
    }
    var n := Msb(ctx.N);
    if n < 128 || n > 4096 {
      return false;
    }
    var e := Msb(ctx.E);
    if e < 2 || e > 64 {
      return false;
    }
    return true;
  }

  /** The same in numbers: N odd from 2^127 to below 2^4096, E odd from 2 to below 2^64. */
  lemma PubkeyRange(n: seq<Limb>, e: seq<Limb>)
    requires n != [] && e != []
    ensures PubkeyShape(n, e) <==>
            && Val(n) % 2 == 1 && P2(127) <= Val(n) < P2(4096)
            && Val(e) % 2 == 1 && 2 <= Val(e) < P2(64)
  {
    ModulusRange(n);
    ExponentRange(e);
  }

  lemma ModulusRange(n: seq<Limb>)
    requires n != []
    ensures n[0] % 2 == 1 && 128 <= BitLen(Val(n)) <= 4096 <==> Val(n) % 2 == 1 && P2(127) <= Val(n) < P2(4096)
  {
    LowLimbParity(n);
    BitLenRange(Val(n), 128, 4096);
  }

  lemma ExponentRange(e: seq<Limb>)
    requires e != []
    ensures e[0] % 2 == 1 && 2 <= BitLen(Val(e)) <= 64 <==> Val(e) % 2 == 1 && 2 <= Val(e) < P2(64)
  {
    LowLimbParity(e);
    BitLenRange(Val(e), 2, 64);
    assert P2(1) == 2;
  }

  lemma LowLimbParity(p: seq<Limb>)
    requires p != []
    ensures Val(p) % 2 == p[0] % 2
  {
    LowBit(p[0], Val(p[1..]));
  }

  lemma BitLenRange(v: nat, lo: nat, hi: nat)
    requires 1 <= lo <= hi
    ensures lo <= BitLen(v) <= hi <==> P2(lo - 1) <= v < P2(hi)
  {
    BitLenBounds(v);
    if BitLen(v) < lo {
      P2Monotone(BitLen(v), lo - 1);
    } else {
      P2Monotone(lo - 1, BitLen(v) - 1);
    }
    if BitLen(v) <= hi {
      P2Monotone(BitLen(v), hi);
    } else {
      P2Monotone(hi, BitLen(v) - 1);
    }
  }

  /** Both parts present and odd, the modulus of 128 to 4096 bits, the exponent of 2 to 64. */
  ghost predicate PubkeyShape(n: seq<Limb>, e: seq<Limb>) {
    n != [] && e != [] && n[0] % 2 == 1 && e[0] % 2 == 1 &&
    128 <= BitLen(Val(n)) <= 4096 && 2 <= BitLen(Val(e)) <= 64
  }

  /** The least common multiple step of the check, with its remainder. */
  method ComputeLambda(P: Mpi, Q: Mpi) returns (ret: Ret, H: Mpi, L1: Mpi, L2: Mpi)
    requires P.Num() && Q.Num()
    ensures fresh(H) && fresh(L1) && fresh(L2) && L1 != L2 && H.Num()
    ensures H.Int() == (P.Int() - 1) * (Q.Int() - 1)
    ensures ret == Success ==> L1.Num() && L2.Num()
    ensures P.Int() >= 2 && Q.Int() >= 2 ==> ret == Success && L1.Int() == Lambda(P.Int(), Q.Int()) && L2.Int() == 0
    ensures P.Int() == 1 && ret == Success ==> L1.Int() == 0
  {
    var P1, Q1;
    P1, Q1, H := Totient(P, Q);
    var G2 := new Mpi();
    L1 := new Mpi();
    L2 := new Mpi();
    GcdMpi(G2, P1, Q1);
    LambdaParts(P.Int(), Q.Int(), H.Int(), G2.Abs(), H.s, H.Abs());
    ret := DivMpi(L1, L2, H, G2);
  }

  /** P - 1, Q - 1 and their product. */
  method Totient(P: Mpi, Q: Mpi) returns (P1: Mpi, Q1: Mpi, H: Mpi)
    requires P.Num() && Q.Num()
    ensures fresh(P1) && fresh(Q1) && fresh(H) && P1.Num() && Q1.Num() && H.Num()
    ensures P1.Int() == P.Int() - 1 && Q1.Int() == Q.Int() - 1
    ensures H.Int() == (P.Int() - 1) * (Q.Int() - 1)
  {
    P1 := new Mpi();
    Q1 := new Mpi();
    H := new Mpi();
    SubInt(P1, P, 1);
    SubInt(Q1, Q, 1);
    MulMpi(H, P1, Q1);
  }

  lemma LambdaParts(p: int, q: int, h: int, g: nat, s: int, ha: nat)
    requires h == (p - 1) * (q - 1) == Signed(s, ha) && (s == 1 || s == -1)
    requires p >= 2 && q >= 2 ==> g == Gcd(p - 1, q - 1)
    ensures p >= 2 && q >= 2 ==> g > 0 && h > 0 && s == 1 && Quo(ha, g) == Lambda(p, q) && Rem(ha, g) == 0
    ensures p == 1 ==> ha == 0 && Quo(ha, g) == 0
  {
    if p >= 2 && q >= 2 {
      MulPos(p - 1, q - 1);
      LambdaExact(p, q);
    } else if p == 1 && g > 0 {
      DivUnique(0, g, 0, 0);
    }
  }

  lemma LambdaExact(p: int, q: int)
    requires p >= 2 && q >= 2
    ensures Gcd(p - 1, q - 1) > 0 && Rem((p - 1) * (q - 1), Gcd(p - 1, q - 1)) == 0
  {
    var g := Gcd(p - 1, q - 1);
    GcdIsGcd(p - 1, q - 1);
    DividesLe(g, p - 1);
    var u := Quotient(g, q - 1);
    MulAssoc(p - 1, u, g);
    DivUnique((p - 1) * (q - 1), g, (p - 1) * u, 0);
  }

  /** The tests on the exponents: D E is 1 modulo the least common multiple, E is prime to the totient. */
  method CheckExponents(E: Mpi, D: Mpi, P: Mpi, Q: Mpi) returns (ok: bool)
    requires E.Num() && D.Num() && P.Num() && Q.Num()
    ensures P.Int() == 1 ==> !ok
    ensures P.Int() >= 2 && Q.Int() >= 2 ==> (ok <==> ExponentsOk(E.Int(), E.Abs(), D.Int(), P.Int(), Q.Int()))
  {
    var ret, H, L1, L2 := ComputeLambda(P, Q);
    if ret != Success {
      return false;
    }
    var G := new Mpi();
    GcdMpi(G, E, H);
    var r2 := CmpInt(L2, 0);
    var rg := CmpInt(G, 1);
    ok := CheckUnit(D, E, L1);
    ok := ok && r2 == 0 && rg == 0;
    if P.Int() >= 2 && Q.Int() >= 2 {
      TotientPositive(P.Int(), Q.Int(), H.Int(), H.s, H.Abs());
    }
  }

  /** D E mod L1 = 1; a modulus that is not positive fails. */
  method CheckUnit(D: Mpi, E: Mpi, L1: Mpi) returns (ok: bool)
    requires D.Num() && E.Num() && L1.Num()
    ensures ok <==> L1.Int() > 0 && Mod(D.Int() * E.Int(), L1.Abs()) == 1
  {
    var DE := new Mpi();
    MulMpi(DE, D, E);
    var I := new Mpi();
    var ret := ModMpi(I, DE, L1);
    if ret != Success {
      return false;
    }
    var ri := CmpInt(I, 1);
    ok := ri == 0;
  }

  ghost predicate ExponentsOk(e: int, ea: nat, d: int, p: int, q: int)
    requires p >= 2 && q >= 2
  {
    Mod(d * e, Lambda(p, q)) == 1 && Gcd(ea, Totient2(p, q)) == 1
  }

  ghost function Totient2(p: int, q: int): nat
    requires p >= 2 && q >= 2
  {
    MulNonNeg(p - 1, q - 1);
    (p - 1) * (q - 1)
  }

  lemma TotientPositive(p: int, q: int, h: int, s: int, ha: nat)
    requires p >= 2 && q >= 2 && h == (p - 1) * (q - 1) == Signed(s, ha)
    ensures ha == Totient2(p, q) > 0
  {
    MulPos(p - 1, q - 1);
  }

  /** One reduced exponent: D mod (P - 1) against the stored value. */
  method CheckReduced(D: Mpi, P: Mpi, DP: Mpi) returns (ok: bool)
    requires D.Num() && P.Num() && (DP.s == 1 || DP.s == -1)
    ensures ok <==> P.Int() >= 2 && DP.Int() == Mod(D.Int(), P.Int() - 1)
  {
    var P1 := new Mpi();
    SubInt(P1, P, 1);
    var X := new Mpi();
    var ret := ModMpi(X, D, P1);
    if ret != Success {
      return false;
    }
    var r := CmpMpi(X, DP);
    ok := r == 0;
  }

  /** The stored inverse of Q modulo P. */
  method CheckInverse(P: Mpi, Q: Mpi, QP: Mpi) returns (ok: bool)
    requires P.Num() && Q.Num() && (QP.s == 1 || QP.s == -1) && P.Int() >= 2
    ensures ok <==> 1 <= QP.Int() < P.Int() && Mod(Q.Int() * QP.Int(), P.Int()) == 1
  {
    var X := new Mpi();
    var ret := InvMpi(X, Q, P);
    if 1 <= QP.Int() < P.Int() && Mod(Q.Int() * QP.Int(), P.Int()) == 1 {
      InverseMeansCoprime(Q.s, Q.Abs(), QP.Int(), P.Int());
      if ret == Success {
        InverseUnique(Q.Int(), QP.Int(), X.Int(), P.Int());
      }
    }
    if ret != Success {
      return false;
    }
    var r := CmpMpi(X, QP);
    ok := r == 0;
  }

  lemma InverseMeansCoprime(s: int, qa: nat, x: int, p: nat)
    requires p >= 2 && Mod(Signed(s, qa) * x, p) == 1
    ensures Gcd(qa, p) == 1
  {
    var q := Signed(s, qa);
    DivUnique(1, p, 0, 1);
    CongIsMod(q * x, 1, p);
    var k := Quotient(p, q * x - 1);
    MulSub(0, x, qa);
    MulSub(0, k, p);
    DividesSelf(qa);
    DividesSelf(p);
    assert Combination(if s < 0 then 0 - x else x, 0 - k, qa, p, 1);
    GcdIsGcd(qa, p);
    GcdUnique(1, Gcd(qa, p), qa, p);
  }

  lemma InverseUnique(q: int, x: int, y: int, p: nat)
    requires p >= 2 && Mod(q * x, p) == 1 && Mod(q * y, p) == 1 && 0 <= x < p && 0 <= y < p
    ensures x == y
  {
    InverseOfQ(p, q, x);
    GcdSym(1, p, q);
    CongIsMod(q * x, q * y, p);
    CongCancel(q, x, y, p);
    CongUnique(x, y, p);
  }

  /** What a key must satisfy to be accepted. */
  ghost predicate Accepted(ctx: RsaContext)
    reads ctx.N, ctx.E, ctx.D, ctx.P, ctx.Q, ctx.DP, ctx.DQ, ctx.QP
  {
    && PubkeyShape(ctx.N.p, ctx.E.p) && ctx.P.p != [] && ctx.Q.p != [] && ctx.D.p != []
    && Related(ctx)
  }

  ghost predicate Related(ctx: RsaContext)
    reads ctx.N, ctx.E, ctx.D, ctx.P, ctx.Q, ctx.DP, ctx.DQ, ctx.QP
  {
    && KeyRelations(ctx.N.Int(), ctx.E.Int(), ctx.D.Int(), ctx.P.Int(), ctx.Q.Int(), ctx.DP.Int(), ctx.DQ.Int(),
                    ctx.QP.Int())
    && Gcd(ctx.E.Abs(), Totient2(ctx.P.Int(), ctx.Q.Int())) == 1
  }

  /** rsa_check_privkey. */
  method CheckPrivkey(ctx: RsaContext) returns (ok: bool)
    requires ctx.Signed()
    ensures ok <==> Accepted(ctx)
  {
    ok := CheckPubkey(ctx);
    if !ok {
      return;
    }
    if ctx.P.p == [] || ctx.Q.p == [] || ctx.D.p == [] {
      return false;
    }
    ok := CheckRelations(ctx);
  }

  /** PQ is compared with N. */
  method CheckProduct(P: Mpi, Q: Mpi, N: Mpi) returns (ok: bool)
    requires P.Num() && Q.Num() && (N.s == 1 || N.s == -1)
    ensures ok <==> P.Int() * Q.Int() == N.Int()
  {
    var PQ := new Mpi();
    MulMpi(PQ, P, Q);
    var r := CmpMpi(PQ, N);
    ok := r == 0;
  }

  /** The computations and comparisons of rsa_check_privkey. */
  method CheckRelations(ctx: RsaContext) returns (ok: bool)
    requires ctx.Signed() && ctx.P.p != [] && ctx.Q.p != [] && ctx.D.p != [] && ctx.E.p != []
    ensures ok <==> Related(ctx)
  {
    var okN := CheckProduct(ctx.P, ctx.Q, ctx.N);
    var okE := CheckExponents(ctx.E, ctx.D, ctx.P, ctx.Q);
    var okP := CheckReduced(ctx.D, ctx.P, ctx.DP);
    var okQ := CheckReduced(ctx.D, ctx.Q, ctx.DQ);
    if !okE || !okP || !okQ {
      return false;
    }
    var okI := CheckInverse(ctx.P, ctx.Q, ctx.QP);
    ok := okN && okI;
  }

  // ---------------------------------------------------------------- the operations

  /** Return codes of the RSA layer. */
  datatype RsaRet = Done | BadInput | Failed(ret: Ret)

  /** rsa_public. */
  method Public(ctx: RsaContext, input: seq<Byte>) returns (ret: RsaRet, output: seq<Byte>)
    requires |input| == ctx.len && ctx.Apart() && ctx.N.Num() && ctx.E.Num() && CacheOk(ctx.RN, ctx.N)
    modifies ctx.RN
    ensures ret == BadInput <==> BE(input) >= ctx.N.Int()
    ensures ret == Done ==> PublicResult(ctx.N.Abs(), ctx.E.Abs(), input, output) && CacheOk(ctx.RN, ctx.N)
    ensures ret == Done <==> (BE(input) < ctx.N.Int() && ctx.N.p[0] % 2 == 1 && ctx.E.Int() >= 0
      && ByteLen(Mod(Pow(BE(input), ctx.E.Abs()), ctx.N.Abs())) <= ctx.len)
  {
    var T := new Mpi();
    ReadBinary(T, input);
    output := [];
    var r := CmpMpi(T, ctx.N);
    if r >= 0 {
      return BadInput, [];
    }
    var e := ExpMpi(T, T, ctx.E, ctx.N, ctx.RN);
    if e != Success {
      return Failed(e), [];
    }
    e, output := WriteBinary(T, ctx.len);
    ret := if e == Success then Done else Failed(e);
  }

  /** output is input^E mod N, both as byte strings of the same length. */
  ghost predicate PublicResult(n: nat, e: nat, input: seq<Byte>, output: seq<Byte>) {
    |output| == |input| && BE(input) < n && BE(output) == Mod(Pow(BE(input), e), n)
  }

  /** rsa_private without the CRT. */
  method PrivatePlain(ctx: RsaContext, input: seq<Byte>) returns (ret: RsaRet, output: seq<Byte>)
    requires |input| == ctx.len && ctx.Apart() && ctx.N.Num() && ctx.D.Num() && CacheOk(ctx.RN, ctx.N)
    modifies ctx.RN
    ensures ret == BadInput <==> BE(input) >= ctx.N.Int()
    ensures ret == Done ==> PublicResult(ctx.N.Abs(), ctx.D.Abs(), input, output) && CacheOk(ctx.RN, ctx.N)
    ensures ret == Done <==> (BE(input) < ctx.N.Int() && ctx.N.p[0] % 2 == 1 && ctx.D.Int() >= 0
      && ByteLen(Mod(Pow(BE(input), ctx.D.Abs()), ctx.N.Abs())) <= ctx.len)
  {
    var T := new Mpi();
    ReadBinary(T, input);
    output := [];
    var r := CmpMpi(T, ctx.N);
    if r >= 0 {
      return BadInput, [];
    }
    var e := ExpMpi(T, T, ctx.D, ctx.N, ctx.RN);
    if e != Success {
      return Failed(e), [];
    }
    e, output := WriteBinary(T, ctx.len);
    ret := if e == Success then Done else Failed(e);
  }

  /** The parts of the key that the CRT path uses are present and usable. */
  ghost predicate CrtReady(ctx: RsaContext)
    reads ctx.P, ctx.Q, ctx.DP, ctx.DQ, ctx.QP, ctx.RP, ctx.RQ
  {
    && ctx.Apart() && ctx.P.Num() && ctx.Q.Num() && ctx.DP.Num() && ctx.DQ.Num() && ctx.QP.Num()
    && CacheOk(ctx.RP, ctx.P) && CacheOk(ctx.RQ, ctx.Q)
  }

  ghost predicate CrtUsable(ctx: RsaContext)
    requires ctx.P.p != [] && ctx.Q.p != []
    reads ctx.P, ctx.Q, ctx.DP, ctx.DQ
  {
    && ctx.P.Int() >= 0 && ctx.P.p[0] % 2 == 1 && ctx.DP.Int() >= 0
    && ctx.Q.Int() >= 0 && ctx.Q.p[0] % 2 == 1 && ctx.DQ.Int() >= 0
  }

  /** The two half-size powers. */
  method HalfPowers(ctx: RsaContext, T: Mpi) returns (e: Ret, T1: Mpi, T2: Mpi)
    requires CrtReady(ctx) && T.Num() && T.s == 1 && T != ctx.RP && T != ctx.RQ
    modifies ctx.RP, ctx.RQ
    ensures fresh(T1) && fresh(T2) && T1 != T2
    ensures e == Success <==> CrtUsable(ctx)
    ensures e == Success ==> CrtReady(ctx) && T1.Num() && T2.Num()
    ensures e == Success ==> T1.Int() == Mod(Pow(T.Abs(), ctx.DP.Abs()), ctx.P.Abs())
    ensures e == Success ==> T2.Int() == Mod(Pow(T.Abs(), ctx.DQ.Abs()), ctx.Q.Abs())
  {
    T1 := new Mpi();
    T2 := new Mpi();
    e := ExpMpi(T1, T, ctx.DP, ctx.P, ctx.RP);
    if e != Success {
      return;
    }
    e := ExpMpi(T2, T, ctx.DQ, ctx.Q, ctx.RQ);
  }

  /** Garner's formula on the temporaries of rsa_private. */
  method Recombine(T: Mpi, T1: Mpi, T2: Mpi, P: Mpi, Q: Mpi, QP: Mpi)
    requires T != T1 && T != T2 && T1 != T2 && T1.Num() && T2.Num() && P.Num() && Q.Num() && QP.Num()
    requires T != P && T != Q && T != QP && T1 != P && T1 != Q && T1 != QP
    requires P.Int() > 0 && Q.Int() > 0
    modifies T, T1
    ensures T.Num() && T.Int() == Garner(old(T1.Int()), T2.Int(), P.Abs(), Q.Int(), QP.Int())
  {
    SubMpi(T, T1, T2);
    MulMpi(T1, T, QP);
    var ret := ModMpi(T, T1, P);
    MulMpi(T1, T, Q);
    AddMpi(T, T2, T1);
  }

  /** rsa_private, the CRT path. */
  method Private(ctx: RsaContext, input: seq<Byte>) returns (ret: RsaRet, output: seq<Byte>)
    requires |input| == ctx.len && ctx.N.Num() && CrtReady(ctx)
    modifies ctx.RP, ctx.RQ
    ensures ret == BadInput <==> BE(input) >= ctx.N.Int()
    ensures ret == Done ==> CrtReady(ctx) && CrtUsable(ctx) && PrivateResult(ctx, input, output)
    ensures ret == Done <==> (BE(input) < ctx.N.Int() && CrtUsable(ctx)
      && ByteLen(PrivateValue(ctx, BE(input))) <= ctx.len)
  {
    var T := new Mpi();
    ReadBinary(T, input);
    output := [];
    var r := CmpMpi(T, ctx.N);
    if r >= 0 {
      return BadInput, [];
    }
    var e, T1, T2 := HalfPowers(ctx, T);
    if e != Success {
      return Failed(e), [];
    }
    OddPositive(ctx.P);
    OddPositive(ctx.Q);
    Recombine(T, T1, T2, ctx.P, ctx.Q, ctx.QP);
    GarnerNonNegative(T1Value(ctx, BE(input)), T2.Int(), ctx.P.Abs(), ctx.Q.Int(), ctx.QP.Int());
    e, output := WriteBinary(T, ctx.len);
    ret := if e == Success then Done else Failed(e);
  }

  ghost function T1Value(ctx: RsaContext, x: nat): int
    reads ctx.P, ctx.DP
  {
    Mod(Pow(x, ctx.DP.Abs()), ctx.P.Abs())
  }

  lemma GarnerNonNegative(m1: int, m2: int, p: nat, q: int, qp: int)
    requires p > 0 && q >= 0 && m2 >= 0
    ensures Garner(m1, m2, p, q, qp) >= 0
  {
    DivDef((m1 - m2) * qp, p);
    MulNonNeg(Mod((m1 - m2) * qp, p), q);
  }

  lemma OddPositive(X: Mpi)
    requires X.Num() && X.Int() >= 0 && X.p[0] % 2 == 1
    ensures X.Int() > 0
  {
    assert X.Abs() == X.p[0] + 0x1_0000_0000 * Val(X.p[1..]);
  }

  /** The integer the CRT path computes. */
  ghost function PrivateValue(ctx: RsaContext, x: nat): int
    reads ctx.P, ctx.Q, ctx.DP, ctx.DQ, ctx.QP
  {
    CrtResult(x, ctx.P.Abs(), ctx.Q.Abs(), ctx.DP.Abs(), ctx.DQ.Abs(), ctx.QP.Int())
  }

  ghost predicate PrivateResult(ctx: RsaContext, input: seq<Byte>, output: seq<Byte>)
    reads ctx.P, ctx.Q, ctx.DP, ctx.DQ, ctx.QP
  {
    |output| == |input| && BE(output) == PrivateValue(ctx, BE(input))
  }

  // ---------------------------------------------------------------- the theorems

  /** A loaded key that the check accepts and whose factors are prime. */
  ghost predicate PrimeKey(ctx: RsaContext)
    reads ctx.N, ctx.E, ctx.D, ctx.P, ctx.Q, ctx.DP, ctx.DQ, ctx.QP, ctx.RP, ctx.RQ
  {
    && ctx.Signed() && CrtReady(ctx) && Accepted(ctx) && Prime(ctx.P.Int()) && Prime(ctx.Q.Int())
  }

  /** The low limb of an odd number is odd and the other way round. */
  lemma OddLowLimb(X: Mpi)
    requires X.Num() && X.Int() >= 0
    ensures X.p[0] % 2 == 1 <==> X.Int() % 2 == 1
  {
    Parity(X);
  }

  lemma KeySigns(ctx: RsaContext)
    requires PrimeKey(ctx)
    ensures ctx.N.Int() == ctx.N.Abs() && ctx.P.Int() == ctx.P.Abs() && ctx.Q.Int() == ctx.Q.Abs()
    ensures ctx.DP.Int() == ctx.DP.Abs() && ctx.DQ.Int() == ctx.DQ.Abs()
    ensures ctx.N.Int() % 2 == 1 && ctx.N.Int() > 0
  {
    MulPos(ctx.P.Int(), ctx.Q.Int());
    OddLowLimb(ctx.N);
  }

  /** The CRT path computes input^D mod N, as the plain path does. */
  lemma PrivateIsPower(ctx: RsaContext, x: nat)
    requires PrimeKey(ctx) && ctx.D.Int() >= 0
    ensures PrivateValue(ctx, x) == Mod(Pow(x, ctx.D.Abs()), ctx.N.Abs())
  {
    KeySigns(ctx);
    CrtIsPower(x, ctx.N.Int(), ctx.E.Int(), ctx.D.Int(), ctx.P.Int(), ctx.Q.Int(), ctx.DP.Int(), ctx.DQ.Int(),
               ctx.QP.Int());
  }

  /** With an accepted key the private operation never fails on an input below N. */
  lemma PrivateNeverFails(ctx: RsaContext, x: nat)
    requires PrimeKey(ctx) && ByteLen(ctx.N.Abs()) <= ctx.len
    ensures CrtUsable(ctx) && ByteLen(PrivateValue(ctx, x)) <= ctx.len
  {
    KeySigns(ctx);
    OddFactors(ctx.N.Int(), ctx.P.Int(), ctx.Q.Int());
    OddLowLimb(ctx.P);
    OddLowLimb(ctx.Q);
    InverseOfQ(ctx.P.Int(), ctx.Q.Int(), ctx.QP.Int());
    CrtParts(x, ctx.P.Int(), ctx.Q.Int(), ctx.DP.Int(), ctx.DQ.Int(), ctx.QP.Int());
    BitLenMonotone(PrivateValue(ctx, x), ctx.N.Abs());
  }

  /** Signing, then verifying, gives the input bytes back. */
  lemma PrivateThenPublic(ctx: RsaContext, input: seq<Byte>, mid: seq<Byte>, output: seq<Byte>)
    requires PrimeKey(ctx) && ctx.E.Int() >= 0 && BE(input) < ctx.N.Int()
    requires PrivateResult(ctx, input, mid)
    requires PublicResult(ctx.N.Abs(), ctx.E.Abs(), mid, output)
    ensures output == input
  {
    KeySigns(ctx);
    PublicUndoesPrivate(BE(input), ctx.N.Int(), ctx.E.Int(), ctx.D.Int(), ctx.P.Int(), ctx.Q.Int(),
                        ctx.DP.Int(), ctx.DQ.Int(), ctx.QP.Int());
    BEInjective(output, input);
  }

  /** Encrypting, then decrypting, gives the input bytes back. */
  lemma PublicThenPrivate(ctx: RsaContext, input: seq<Byte>, mid: seq<Byte>, output: seq<Byte>)
    requires PrimeKey(ctx) && ctx.E.Int() >= 0
    requires PublicResult(ctx.N.Abs(), ctx.E.Abs(), input, mid)
    requires PrivateResult(ctx, mid, output)
    ensures output == input
  {
    KeySigns(ctx);
    PrivateUndoesPublic(BE(input), ctx.N.Int(), ctx.E.Int(), ctx.D.Int(), ctx.P.Int(), ctx.Q.Int(),
                        ctx.DP.Int(), ctx.DQ.Int(), ctx.QP.Int());
    BEInjective(output, input);
  }
}
