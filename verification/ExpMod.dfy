/** Sliding-window modular exponentiation (HAC 14.85) over Montgomery products. */
module ExpMod {
  import opened Limbs
  import opened Bits
  import opened Mul
  import opened NumberTheory
  import opened Primes
  import opened BigNum
  import opened Shifts
  import opened Division
  import opened BinaryGcd
  import opened Montgomery

  // ---------------------------------------------------------------- Montgomery form

  /** v is the residue of a^e in Montgomery form with factor r. */
  ghost predicate Mont(v: int, a: int, e: nat, r: int, n: int) {
    0 <= v < n && Cong(v, Pow(a, e) * r, n)
  }

  /** The product step of Montgomery form adds exponents. */
  lemma MontProduct(v: int, w: int, u: int, a: int, e: nat, f: nat, r: int, n: int)
    requires Mont(v, a, e, r, n) && Mont(w, a, f, r, n)
    requires 0 <= u < n && Cong(u * r, v * w, n) && IsGcd(1, r, n)
    ensures Mont(u, a, e + f, r, n)
  {
    var x, y := Pow(a, e), Pow(a, f);
    CongMul2(v, x * r, w, y * r, n);
    CongTrans(u * r, v * w, (x * r) * (y * r), n);
    PowAdd(a, e, f);
    FourFactors(x, y, r);
    CongCancel(r, u, (x * y) * r, n);
  }

  lemma FourFactors(x: int, y: int, r: int)
    ensures (x * r) * (y * r) == r * ((x * y) * r)
  {
    MulAssoc(x, r, y * r);
    MulSwap(r, y, r);
    MulAssoc(x, y, r * r);
    MulSwap(x * y, r, r);
  }

  /** The modulus is odd, so the Montgomery factor is prime to it. */
  lemma FactorCoprime(N: Mpi)
    requires N.Num() && N.p[0] % 2 == 1
    ensures IsGcd(1, Pw(|N.p|), N.Abs()) && N.Abs() > 0
  {
    assert N.Abs() == N.p[0] + 2 * (0x8000_0000 * Val(N.p[1..]));
    PwIsP2(|N.p|);
    PowerOfTwoCoprime(32 * |N.p|, N.Abs());
  }

  /** Modulus, constant and scratch buffer of an exponentiation. */
  ghost predicate Env(N: Mpi, mm: Limb, T: Mpi)
    reads N, T
  {
    && N != T && N.Num() && T.Num() && |T.p| == 2 * |N.p| + 2
    && N.Abs() > 0 && IsGcd(1, Pw(|N.p|), N.Abs())
    && Cong(mm * N.p[0], -1, 0x1_0000_0000)
  }

  /** An accumulator or table entry: a^e in Montgomery form. */
  ghost predicate Holds(X: Mpi, N: Mpi, a: int, e: nat)
    reads X, N
  {
    X.Num() && |X.p| > |N.p| && Mont(X.Abs(), a, e, Pw(|N.p|), N.Abs())
  }

  /** X := X * Y in Montgomery form. */
  method Multiply(X: Mpi, Y: Mpi, N: Mpi, mm: Limb, T: Mpi, ghost a: int, ghost e: nat, ghost f: nat)
    requires Env(N, mm, T) && X != N && X != T && Y != T
    requires Holds(X, N, a, e) && Holds(Y, N, a, f)
    modifies X`p, T`p
    ensures Env(N, mm, T) && Holds(X, N, a, e + f)
  {
    ghost var v, w := X.Abs(), Y.Abs();
    ValBound(N.p);
    MontMul(X, Y, N, mm, T);
    MontProduct(v, w, X.Abs(), a, e, f, Pw(|N.p|), N.Abs());
  }

  /** k squarings multiply the exponent by 2^k. */
  method SquareTimes(X: Mpi, N: Mpi, mm: Limb, T: Mpi, k: nat, ghost a: int, ghost e: nat)
    requires Env(N, mm, T) && X != N && X != T
    requires Holds(X, N, a, e)
    modifies X`p, T`p
    ensures e * P2(k) >= 0 && Env(N, mm, T) && Holds(X, N, a, e * P2(k))
  {
    var i := 0;
    ghost var d := e;
    while i < k
      invariant 0 <= i <= k && Env(N, mm, T) && d == e * P2(i)
      invariant d >= 0 && Holds(X, N, a, d)
    {
      Multiply(X, X, N, mm, T, a, d, d);
      MulSwap(e, 2, P2(i));
      d := d + d;
      i := i + 1;
    }
  }

  // ---------------------------------------------------------------- the table

  /** The table entries that the window may select: 1 and the numbers of exactly w bits. */
  ghost predicate InTable(k: nat, w: nat)
    requires w >= 1
  {
    k == 1 || P2(w - 1) <= k < P2(w)
  }

  ghost predicate Entry(E: Mpi?, X: Mpi, N: Mpi, T: Mpi, a: int, k: nat)
    reads N, E
  {
    E != null && E != X && E != T && E != N && Holds(E, N, a, k)
  }

  /** Every selectable entry is present, apart from X and T, and holds its power. */
  ghost predicate Table(W: seq<Mpi?>, w: nat, X: Mpi, N: Mpi, T: Mpi, a: int)
    requires w >= 1
    reads N, W
  {
    |W| == P2(w) && forall k: nat :: k < |W| && InTable(k, w) ==> Entry(W[k], X, N, T, a, k)
  }

  /** What the table loop keeps: entries from 2^(w-1) up to i, and entry 1. */
  ghost predicate Partial(W: seq<Mpi?>, lo: nat, i: nat, X: Mpi, N: Mpi, T: Mpi, a: int)
    reads N, W
  {
    1 < |W| && i <= |W| && Entry(W[1], X, N, T, a, 1) && forall k: nat :: lo <= k < i ==> Entry(W[k], X, N, T, a, k)
  }

  /** A copy of a table entry with room for a product. */
  method CopyEntry(S: Mpi, N: Mpi, ghost a: int, ghost e: nat) returns (E: Mpi)
    requires N.Num() && Holds(S, N, a, e)
    ensures fresh(E) && Holds(E, N, a, e)
  {
    E := new Mpi();
    Grow(E, |N.p| + 1);
    Copy(E, S);
  }

  /** The window table of mpi_exp_mod. */
  method BuildTable(W1: Mpi, X: Mpi, N: Mpi, mm: Limb, T: Mpi, wsize: nat, ghost a: int) returns (W: seq<Mpi?>)
    requires Env(N, mm, T) && 1 <= wsize <= 6 && X != T && X != N
    requires Entry(W1, X, N, T, a, 1)
    modifies T`p
    ensures Env(N, mm, T) && Table(W, wsize, X, N, T, a)
  {
    P2Monotone(1, wsize);
    W := seq(P2(wsize), _ => null)[1 := W1];
    if wsize > 1 {
      var j := P2(wsize - 1);
      P2Monotone(1, wsize - 1);
      var E := CopyEntry(W1, N, a, 1);
      SquareTimes(E, N, mm, T, wsize - 1, a, 1);
      W := W[j := E];
      W := FillTable(W, j, X, N, mm, T, wsize, a);
    }
  }

  /** The loop W[i] = W[i - 1] * W[1]. */
  method FillTable(W0: seq<Mpi?>, j: nat, X: Mpi, N: Mpi, mm: Limb, T: Mpi, wsize: nat, ghost a: int)
    returns (W: seq<Mpi?>)
    requires Env(N, mm, T) && wsize > 1 && X != T && X != N
    requires 2 <= j == P2(wsize - 1) && |W0| == P2(wsize)
    requires Partial(W0, j, j + 1, X, N, T, a)
    modifies T`p
    ensures Env(N, mm, T) && Table(W, wsize, X, N, T, a)
  {
    W := W0;
    var i := j + 1;
    while i < P2(wsize)
      invariant j < i <= |W| == P2(wsize)
      invariant Env(N, mm, T) && Partial(W, j, i, X, N, T, a)
    {
      var E := CopyEntry(W[i - 1], N, a, i - 1);
      Multiply(E, W[1], N, mm, T, a, i - 1, 1);
      W := W[i := E];
      i := i + 1;
    }
  }

  // ---------------------------------------------------------------- the window

  /** The bits of v from position r up. */
  ghost function Above(v: nat, r: nat): nat {
    Quo(v, P2(r))
  }

  lemma AboveStep(v: nat, r: nat)
    ensures Above(v, r) == 2 * Above(v, r + 1) + Above(v, r) % 2
  {
    DivDiv(v, P2(r), 2);
    DivDef(v / P2(r), 2);
  }

  lemma AboveLimb(p: seq<Limb>, i: nat, j: nat)
    requires i <= |p|
    ensures Above(Val(p), 32 * i + j) == Above(Val(p[i..]), j)
  {
    ShiftRInTwo(p, i, j);
  }

  /** Reading one more bit of the exponent from the top. */
  lemma BitAt(p: seq<Limb>, i: nat, j: nat, r: nat)
    requires i < |p| && j < 32 && r == 32 * i + j
    ensures Above(Val(p), r) == 2 * Above(Val(p), r + 1) + (p[i] / P2(j)) % 2
  {
    AboveStep(Val(p), r);
    AboveLimb(p, i, j);
    TopBit(p[i..], j);
  }

  lemma TopBit(t: seq<Limb>, j: nat)
    requires t != [] && j < 32
    ensures Above(Val(t), j) % 2 == (t[0] / P2(j)) % 2
  {
    LimbBit(t[0], Val(t[1..]), j);
  }

  lemma LimbBit(x: Limb, hi: nat, j: nat)
    requires j < 32
    ensures ((x + 0x1_0000_0000 * hi) / P2(j)) % 2 == (x / P2(j)) % 2
  {
    var h := P2(31 - j) * hi;
    HighPart(j, hi);
    DivDef(x, P2(j));
    MulAdd(x / P2(j), 2 * h, P2(j));
    DivUnique(x + 0x1_0000_0000 * hi, P2(j), x / P2(j) + 2 * h, x % P2(j));
    EvenPlus(x / P2(j) + 2 * h, h, x / P2(j));
  }

  /** An open window: its nbits bits win stand at the top of wbits, and applied is the part of the
      consumed exponent e that the accumulator already holds. */
  ghost predicate Open(e: nat, nbits: nat, wbits: nat, w: nat, applied: nat, win: nat) {
    1 <= nbits <= w && P2(nbits - 1) <= win < P2(nbits) &&
    wbits == win * P2(w - nbits) && e == applied * P2(nbits) + win
  }

  /** The window state: 0 before the first one bit, 1 between windows, 2 inside one. */
  ghost predicate Window(e: nat, state: int, nbits: nat, wbits: nat, w: nat, applied: nat, win: nat) {
    if state == 2 then nbits < w && Open(e, nbits, wbits, w, applied, win)
    else (state == 0 || state == 1) && nbits == 0 && wbits == 0 && e == applied && (state == 0 ==> e == 0)
  }

  lemma OpenMore(e: nat, state: int, nbits: nat, wbits: nat, w: nat, applied: nat, win: nat, ei: nat)
    requires w >= 1 && Window(e, state, nbits, wbits, w, applied, win)
    requires ei == 1 || (ei == 0 && state == 2)
    ensures var win' := if state == 2 then 2 * win + ei else 1;
      nbits < w && Open(2 * e + ei, nbits + 1, wbits + ei * P2(w - nbits - 1), w, applied, win')
  {
    if state == 2 {
      MulAssoc(2, win, P2(w - nbits - 1));
      MulSwap(win, 2, P2(w - nbits - 1));
      MulAdd(2 * win, ei, P2(w - nbits - 1));
      MulSwap(applied, 2, P2(nbits));
    }
  }

  /** One exponent bit: skip, square, or extend the window and apply it when it is full. */
  method ConsumeBit(X: Mpi, W: seq<Mpi?>, N: Mpi, mm: Limb, T: Mpi, wsize: nat, ei: nat,
                    state: int, nbits: nat, wbits: nat, ghost a: int, ghost e: nat, ghost applied: nat, ghost win: nat)
    returns (state': int, nbits': nat, wbits': nat, ghost applied': nat, ghost win': nat)
    requires Env(N, mm, T) && X != T && X != N && wsize >= 1 && Table(W, wsize, X, N, T, a)
    requires ei == 0 || ei == 1
    requires Window(e, state, nbits, wbits, wsize, applied, win) && Holds(X, N, a, applied)
    modifies X`p, T`p
    ensures Env(N, mm, T) && Table(W, wsize, X, N, T, a)
    ensures Window(2 * e + ei, state', nbits', wbits', wsize, applied', win') && Holds(X, N, a, applied')
  {
    state', nbits', wbits', applied', win' := state, nbits, wbits, applied, win;
    if ei == 0 && state == 0 {
      return;
    }
    if ei == 0 && state == 1 {
      Multiply(X, X, N, mm, T, a, applied, applied);
      applied' := applied + applied;
      return;
    }
    OpenMore(e, state, nbits, wbits, wsize, applied, win, ei);
    win' := if state == 2 then 2 * win + ei else 1;
    state' := 2;
    nbits' := nbits + 1;
    wbits' := wbits + ei * P2(wsize - nbits');
    if nbits' == wsize {
      applied' := ApplyWindow(X, W, N, mm, T, wsize, wbits', a, applied, win');
      state' := state' - 1;
      nbits' := 0;
      wbits' := 0;
    }
  }

  /** A full window: wsize squarings and one product with the entry the window selects. */
  method ApplyWindow(X: Mpi, W: seq<Mpi?>, N: Mpi, mm: Limb, T: Mpi, wsize: nat, wbits: nat,
                     ghost a: int, ghost applied: nat, ghost win: nat)
    returns (ghost applied': nat)
    requires Env(N, mm, T) && X != T && X != N && wsize >= 1 && Table(W, wsize, X, N, T, a)
    requires P2(wsize - 1) <= win < P2(wsize) && wbits == win * P2(0)
    requires Holds(X, N, a, applied)
    modifies X`p, T`p
    ensures Env(N, mm, T) && Table(W, wsize, X, N, T, a)
    ensures applied' == applied * P2(wsize) + win && Holds(X, N, a, applied')
  {
    assert InTable(wbits, wsize);
    SquareTimes(X, N, mm, T, wsize, a, applied);
    Multiply(X, W[wbits], N, mm, T, a, applied * P2(wsize), wbits);
    applied' := applied * P2(wsize) + win;
  }

  /** The main loop of mpi_exp_mod. */
  method ExpLoop(X: Mpi, W: seq<Mpi?>, E: Mpi, N: Mpi, mm: Limb, T: Mpi, wsize: nat, ghost a: int)
    returns (state: int, nbits: nat, wbits: nat, ghost applied: nat, ghost win: nat)
    requires Env(N, mm, T) && X != T && X != N && E != X && E != T && E.Num()
    requires wsize >= 1 && Table(W, wsize, X, N, T, a)
    requires Holds(X, N, a, 0)
    modifies X`p, T`p
    ensures Env(N, mm, T) && Table(W, wsize, X, N, T, a)
    ensures Window(E.Abs(), state, nbits, wbits, wsize, applied, win) && Holds(X, N, a, applied)
  {
    var nblimbs, bufsize := |E.p|, 0;
    state, nbits, wbits, applied, win := 0, 0, 0, 0, 0;
    ghost var e := 0;
    ExponentStart(E.p);
    while nblimbs > 0 || bufsize > 0
      invariant 0 <= nblimbs <= |E.p| && 0 <= bufsize <= 32 && (bufsize > 0 ==> nblimbs < |E.p|)
      invariant e == Above(E.Abs(), 32 * nblimbs + bufsize)
      invariant Env(N, mm, T) && Table(W, wsize, X, N, T, a)
      invariant Window(e, state, nbits, wbits, wsize, applied, win) && Holds(X, N, a, applied)
      decreases 32 * nblimbs + bufsize
    {
      var ei;
      nblimbs, bufsize, ei := NextBit(E, nblimbs, bufsize);
      state, nbits, wbits, applied, win :=
        ConsumeBit(X, W, N, mm, T, wsize, ei, state, nbits, wbits, a, e, applied, win);
      e := 2 * e + ei;
    }
    assert Above(E.Abs(), 0) == E.Abs();
  }

  /** The bit buffer: a new limb is fetched when the last one is used up. */
  method NextBit(E: Mpi, nblimbs0: nat, bufsize0: nat) returns (nblimbs: nat, bufsize: nat, ei: nat)
    requires nblimbs0 <= |E.p| && bufsize0 <= 32 && (bufsize0 > 0 ==> nblimbs0 < |E.p|)
    requires nblimbs0 > 0 || bufsize0 > 0
    ensures nblimbs < |E.p| && bufsize < 32
    ensures 32 * nblimbs + bufsize == 32 * nblimbs0 + bufsize0 - 1
    ensures ei == 0 || ei == 1
    ensures Above(E.Abs(), 32 * nblimbs + bufsize) == 2 * Above(E.Abs(), 32 * nblimbs0 + bufsize0) + ei
  {
    nblimbs, bufsize := nblimbs0, bufsize0;
    if bufsize == 0 {
      nblimbs := nblimbs - 1;
      bufsize := 32;
    }
    bufsize := bufsize - 1;
    BitAt(E.p, nblimbs, bufsize, 32 * nblimbs + bufsize);
    ei := (E.p[nblimbs] / P2(bufsize)) % 2;
  }

  lemma ExponentStart(p: seq<Limb>)
    ensures Above(Val(p), 32 * |p|) == 0
  {
    ValBound(p);
    PwIsP2(|p|);
    DivUnique(Val(p), P2(32 * |p|), 0, Val(p));
  }

  /** The bits of a window that the exponent ended in. */
  lemma TailBit(win: nat, w: nat, nbits: nat, i: nat)
    requires i < nbits <= w && win < P2(nbits)
    ensures Quo(win, P2(nbits - i - 1)) == 2 * Quo(win, P2(nbits - i)) + Quo(win * P2(w - nbits + i + 1), P2(w)) % 2
  {
    var k := nbits - i - 1;
    P2Add(w - k, k);
    MulPos(P2(w - k), P2(k));
    ScaledDiv(win, P2(w - k), P2(k));
    DivDiv(win, P2(k), 2);
    P2Add(k, 1);
    DivDef(win / P2(k), 2);
  }

  lemma ScaledDiv(x: nat, c: nat, d: nat)
    requires c > 0 && d > 0
    ensures c * d > 0 && (x * c) / (c * d) == x / d
  {
    MulPos(c, d);
    DivDiv(x * c, c, d);
    DivUnique(x * c, c, x, 0);
  }

  /** The bits left in an unfinished window, one at a time. */
  method ExpTail(X: Mpi, W1: Mpi, N: Mpi, mm: Limb, T: Mpi, wsize: nat, nbits: nat, wbits0: nat,
                 ghost a: int, ghost applied: nat, ghost win: nat)
    requires Env(N, mm, T) && X != T && X != N && W1 != X && W1 != T && Holds(W1, N, a, 1)
    requires nbits <= wsize && win < P2(nbits) && wbits0 == win * P2(wsize - nbits)
    requires Holds(X, N, a, applied)
    modifies X`p, T`p
    ensures Env(N, mm, T)
    ensures applied * P2(nbits) + win >= 0 && Holds(X, N, a, applied * P2(nbits) + win)
  {
    var wbits, i := wbits0, 0;
    ghost var d := applied;
    DivUnique(win, P2(nbits), 0, win);
    while i < nbits
      invariant 0 <= i <= nbits && Env(N, mm, T) && Holds(W1, N, a, 1)
      invariant wbits == win * P2(wsize - nbits + i)
      invariant d == applied * P2(i) + Quo(win, P2(nbits - i))
      invariant d >= 0 && Holds(X, N, a, d)
    {
      TailBit(win, wsize, nbits, i);
      TailStep(win, wsize - nbits + i, applied, i);
      wbits := wbits * 2;
      d := TailRound(X, W1, N, mm, T, wsize, wbits, a, d);
      i := i + 1;
    }
  }

  /** One leftover bit: square, and multiply when bit wsize of the shifted window is set. */
  method TailRound(X: Mpi, W1: Mpi, N: Mpi, mm: Limb, T: Mpi, wsize: nat, wbits: nat, ghost a: int, ghost d: nat)
    returns (ghost d': nat)
    requires Env(N, mm, T) && X != T && X != N && W1 != X && W1 != T && Holds(W1, N, a, 1)
    requires Holds(X, N, a, d)
    modifies X`p, T`p
    ensures Env(N, mm, T) && Holds(W1, N, a, 1) && Holds(X, N, a, d')
    ensures d' == 2 * d + Quo(wbits, P2(wsize)) % 2
  {
    Multiply(X, X, N, mm, T, a, d, d);
    d' := d + d;
    if (wbits / P2(wsize)) % 2 != 0 {
      Multiply(X, W1, N, mm, T, a, d', 1);
      d' := d' + 1;
    }
  }

  lemma TailStep(win: nat, k: nat, applied: nat, i: nat)
    ensures (win * P2(k)) * 2 == win * P2(k + 1)
    ensures applied * P2(i + 1) == 2 * (applied * P2(i))
  {
    MulSwap(win, 2, P2(k));
    MulSwap(applied, 2, P2(i));
  }

  // ---------------------------------------------------------------- the whole function

  /** The cached constant R^2 mod N for a modulus of n limbs. */
  ghost function RSquared(n: nat, nn: nat): nat {
    MulNonNeg(Pw(n), Pw(n));
    Mod(Pw(n) * Pw(n), nn)
  }

  /** The constant R^2 mod N: taken from the cache, or computed and cached. */
  method SquareOfR(N: Mpi, Cache: Mpi?) returns (RR: Mpi)
    requires N.Num() && N.Int() > 0 && Cache != N
    requires Cache != null && Cache.p != [] ==> Cache.Num() && Cache.Int() == RSquared(|N.p|, N.Abs())
    modifies Cache
    ensures fresh(RR) && RR.Num() && RR.Int() == RSquared(|N.p|, N.Abs())
    ensures Cache != null ==> Cache.Num() && Cache.Int() == RSquared(|N.p|, N.Abs())
  {
    RR := new Mpi();
    if Cache == null || Cache.p == [] {
      ComputeRSquared(RR, N);
      if Cache != null {
        Cache.p, Cache.s := RR.p, RR.s;
      }
    } else {
      RR.p, RR.s := Cache.p, Cache.s;
    }
  }

  method ComputeRSquared(RR: Mpi, N: Mpi)
    requires N.Num() && N.Int() > 0 && RR != N
    modifies RR
    ensures RR.Num() && RR.Int() == RSquared(|N.p|, N.Abs())
  {
    var n := |N.p|;
    Lset(RR, 1);
    ValOneMeans(RR.Int(), RR.s, RR.p);
    ShiftL(RR, n * 2 * 32);
    PwIsP2(n * 2);
    PwAdd(n, n);
    var ret := ModMpi(RR, RR, N);
  }

  lemma ValOneMeans(v: int, s: int, p: seq<Limb>)
    requires v == Signed(s, Val(p)) && v == 1
    ensures s >= 0 && Val(p) == 1
  {
  }

  /** R^2 mod N is zero only for N = 1. */
  lemma RSquaredZero(n: nat, nn: nat)
    requires nn > 0 && IsGcd(1, Pw(n), nn) && RSquared(n, nn) == 0
    ensures nn == 1
  {
    var r := Pw(n);
    CongModulus(r * r, nn);
    CoprimeCancel(r, r, nn);
    CoprimeCancel(r, 1, nn);
    DividesLe(nn, 1);
  }

  /** Both factors R^2 R^-1 = R, with a^0 or a^1 in front. */
  lemma MontStart(u: int, v: int, rr: int, a: int, e: nat, r: int, n: int)
    requires 0 <= u < n && Cong(u * r, v * rr, n) && IsGcd(1, r, n)
    requires Cong(rr, r * r, n) && Cong(v, Pow(a, e), n)
    ensures Mont(u, a, e, r, n)
  {
    CongMul2(v, Pow(a, e), rr, r * r, n);
    CongTrans(u * r, v * rr, Pow(a, e) * (r * r), n);
    MulSwap(r, Pow(a, e), r);
    CongCancel(r, u, Pow(a, e) * r, n);
  }

  /** Leaving Montgomery form. */
  lemma MontEnd(u: int, v: int, a: int, e: nat, r: int, n: nat)
    requires 0 <= u < n && Cong(u * r, v, n) && IsGcd(1, r, n) && Mont(v, a, e, r, n)
    ensures u == Mod(Pow(a, e), n)
  {
    Leave(u, v, Pow(a, e), r, n);
  }

  lemma Leave(u: int, v: int, p: int, r: int, n: nat)
    requires 0 <= u < n && Cong(u * r, v, n) && IsGcd(1, r, n) && Cong(v, p * r, n)
    ensures u == Mod(p, n)
  {
    CongTrans(u * r, v, p * r, n);
    CongCancel(r, u, p, n);
    ResidueIs(u, p, n);
  }

  lemma ResidueIs(u: int, p: int, n: nat)
    requires 0 <= u < n && Cong(u, p, n)
    ensures u == Mod(p, n)
  {
    CongIsMod(u, p, n);
    DivUnique(u, n, 0, u);
  }

  /** W[1]: the base, reduced when it is not below N, in Montgomery form. */
  method FirstEntry(A: Mpi, N: Mpi, mm: Limb, T: Mpi, RR: Mpi) returns (W1: Mpi)
    requires Env(N, mm, T) && A.Num() && A.s == 1 && N.Int() > 0 && RR != T && T != A
    requires RR.Num() && RR.Int() == RSquared(|N.p|, N.Abs())
    modifies T`p
    ensures fresh(W1) && Env(N, mm, T) && Holds(W1, N, A.Abs(), 1)
  {
    W1 := ReducedBase(A, N);
    ghost var a, nn, r := A.Abs(), N.Abs(), Pw(|N.p|);
    ghost var v, rr := W1.Abs(), RR.Abs();
    CongModulus(a, nn);
    CongModulus(r * r, nn);
    ValBound(N.p);
    MontMul(W1, RR, N, mm, T);
    assert Pow(a, 1) == a * Pow(a, 0) == a;
    MontStart(W1.Abs(), v, rr, a, 1, r, nn);
  }

  /** The base with room for a product, reduced when it is not below N. */
  method ReducedBase(A: Mpi, N: Mpi) returns (W1: Mpi)
    requires A.Num() && A.s == 1 && N.Num() && N.Int() > 0
    ensures fresh(W1) && W1.Num() && |W1.p| > |N.p| && W1.Abs() == Mod(A.Abs(), N.Abs()) < N.Abs()
  {
    W1 := new Mpi();
    Grow(W1, |N.p| + 1);
    ModShift(A.Abs(), N.Abs());
    var c := CmpMpi(A, N);
    if c >= 0 {
      var ret := ModMpi(W1, A, N);
    } else {
      Copy(W1, A);
    }
  }

  /** X := R mod N, the Montgomery form of 1. */
  method FirstValue(X: Mpi, N: Mpi, mm: Limb, T: Mpi, RR: Mpi, ghost a: int)
    requires Env(N, mm, T) && X != N && X != T && X != RR && RR != T && N.Int() > 0
    requires |X.p| > |N.p|
    requires RR.Num() && RR.Int() == RSquared(|N.p|, N.Abs())
    modifies X, T`p
    ensures Env(N, mm, T) && Holds(X, N, a, 0) && (X.s == 1 || N.Abs() == 1)
  {
    ghost var nn, r := N.Abs(), Pw(|N.p|);
    CongModulus(r * r, nn);
    if RR.Abs() == 0 {
      RSquaredZero(|N.p|, nn);
    }
    Copy(X, RR);
    ghost var v := X.Abs();
    ValBound(N.p);
    MontRed(X, N, mm, T);
    CongRefl(1, nn);
    MontStart(X.Abs(), 1, v, a, 0, r, nn);
  }

  /** The window size for an exponent of i bits. */
  function WindowSize(i: nat): nat {
    if i > 671 then 6 else if i > 239 then 5 else if i > 79 then 4 else if i > 23 then 3 else 1
  }

  /** Everything between the preparation and the sign correction: X := a^E mod N. */
  method ExpPositive(X: Mpi, A: Mpi, E: Mpi, N: Mpi, mm: Limb, RR: Mpi, wsize: nat)
    requires A.Num() && A.s == 1 && E.Num() && N.Num() && N.Int() > 0 && N.p[0] % 2 == 1
    requires X != E && X != N && RR != X && 1 <= wsize <= 6 && |X.p| > |N.p|
    requires RR.Num() && RR.Int() == RSquared(|N.p|, N.Abs())
    requires Cong(mm * N.p[0], -1, 0x1_0000_0000)
    modifies X
    ensures X.Num() && X.Int() == X.Abs() == Mod(Pow(old(A.Abs()), E.Abs()), N.Abs())
  {
    ghost var a := A.Abs();
    var T := new Mpi();
    Grow(T, 2 * (|N.p| + 1));
    FactorCoprime(N);
    var W1 := FirstEntry(A, N, mm, T, RR);
    FirstValue(X, N, mm, T, RR, a);
    var W := BuildTable(W1, X, N, mm, T, wsize, a);
    ExpRun(X, W, E, N, mm, T, wsize, a);
  }

  /** The loop, the tail and the final reduction. */
  method ExpRun(X: Mpi, W: seq<Mpi?>, E: Mpi, N: Mpi, mm: Limb, T: Mpi, wsize: nat, ghost a: nat)
    requires Env(N, mm, T) && X != T && X != N && E != X && E != T && E.Num() && wsize >= 1
    requires Table(W, wsize, X, N, T, a) && Holds(X, N, a, 0) && (X.s == 1 || N.Abs() == 1)
    modifies X`p, T`p
    ensures X.Num() && X.Int() == X.Abs() == Mod(Pow(a, E.Abs()), N.Abs())
  {
    var state, nbits, wbits;
    ghost var applied, win;
    state, nbits, wbits, applied, win := ExpLoop(X, W, E, N, mm, T, wsize, a);
    P2Monotone(1, wsize);
    assert InTable(1, wsize);
    ghost var tail := if state == 2 then win else 0;
    ExpTail(X, W[1], N, mm, T, wsize, nbits, wbits, a, applied, tail);
    ghost var v := X.Abs();
    ValBound(N.p);
    MontRed(X, N, mm, T);
    MontEnd(X.Abs(), v, a, E.Abs(), Pw(|N.p|), N.Abs());
  }

  /** The value mpi_exp_mod leaves: for a negative base the positive power is subtracted from N. */
  ghost function ExpResult(sa: int, a: nat, e: nat, nn: nat): int {
    if sa < 0 then nn - Mod(Pow(a, e), nn) else Mod(Pow(a, e), nn)
  }

  /** mpi_exp_mod.  X may be A. */
  method ExpMpi(X: Mpi, A: Mpi, E: Mpi, N: Mpi, Cache: Mpi?) returns (ret: Ret)
    requires A.Num() && E.Num() && N.Num() && X != E && X != N
    requires Cache != X && Cache != A && Cache != E && Cache != N
    requires Cache != null && Cache.p != [] ==> Cache.Num() && Cache.Int() == RSquared(|N.p|, N.Abs())
    modifies X, Cache
    ensures ret == (if N.Int() < 0 || N.p[0] % 2 == 0 || E.Int() < 0 then BadInputData else Success)
    ensures ret != Success ==> X.p == old(X.p) && X.s == old(X.s)
    ensures ret != Success && Cache != null ==> Cache.p == old(Cache.p) && Cache.s == old(Cache.s)
    ensures ret == Success ==> X.Num() && X.Int() == ExpResult(old(A.s), old(A.Abs()), E.Abs(), N.Abs())
    ensures ret == Success && Cache != null ==> Cache.Num() && Cache.Int() == RSquared(|N.p|, N.Abs())
  {
    var r := CmpInt(N, 0);
    if r < 0 || N.p[0] % 2 == 0 {
      return BadInputData;
    }
    r := CmpInt(E, 0);
    if r < 0 {
      return BadInputData;
    }
    FactorCoprime(N);
    var mm := MontgInit(N);
    var i := Msb(E);
    var wsize := WindowSize(i);
    var base := A;
    var neg := A.s == -1;
    if neg {
      base := new Mpi();
      Copy(base, A);
      base.s := 1;
    }
    Grow(X, |N.p| + 1);
    var RR := SquareOfR(N, Cache);
    ExpPositive(X, base, E, N, mm, RR, wsize);
    if neg {
      X.s := -1;
      AddMpi(X, N, X);
    }
    return Success;
  }

  lemma {:induction false} PowNegated(a: int, e: nat)
    ensures Pow(-a, e) == if e % 2 == 0 then Pow(a, e) else -Pow(a, e)
  {
    if e > 0 {
      PowNegated(a, e - 1);
      MulSub(0, a, Pow(a, e - 1));
      MulSub(0, Pow(a, e - 1), -a);
    }
  }

  lemma ZeroResidue(x: int, n: nat)
    requires n > 0
    ensures Mod(x, n) == 0 <==> Divides(n, x)
  {
    CongIsMod(x, 0, n);
    DivUnique(0, n, 0, 0);
  }

  /** The residue of a negated number. */
  lemma NegatedResidue(x: nat, n: nat)
    requires n > 0
    ensures Mod(0 - x, n) == if Mod(x, n) == 0 then 0 else n - Mod(x, n)
  {
    ModOfSigned(-1, x, n);
  }

  lemma HalfOdd(n: nat, r: nat)
    requires n % 2 == 1
    ensures n - r != r
  {
  }

  /**
   * For a negative base the result is the residue of A^E if and only if E is odd and N does not
   * divide |A|^E. For an even E it is the negated residue; where the residue is 0 it is N.
   */
  lemma NegativeBaseRight(a: nat, e: nat, nn: nat)
    requires nn > 0 && nn % 2 == 1
    ensures ExpResult(-1, a, e, nn) == Mod(Pow(-(a as int), e), nn) <==> e % 2 == 1 && !Divides(nn, Pow(a, e))
  {
    var p := Pow(a, e);
    PowNonNeg(a, e);
    PowNegated(a, e);
    NegatedResidue(p, nn);
    ZeroResidue(p, nn);
    ModShift(p, nn);
    HalfOdd(nn, Mod(p, nn));
  }

  /** For a prime modulus: if and only if E is odd and N does not divide A. */
  lemma NegativeBasePrime(a: nat, e: nat, nn: nat)
    requires Prime(nn) && nn % 2 == 1
    ensures ExpResult(-1, a, e, nn) == Mod(Pow(-(a as int), e), nn) <==> e % 2 == 1 && !Divides(nn, a)
  {
    NegativeBaseRight(a, e, nn);
    PrimeDividesPower(nn, a, e);
  }

  lemma {:induction false} CoprimePower(a: int, e: nat, n: int)
    requires IsGcd(1, a, n)
    ensures IsGcd(1, Pow(a, e), n)
  {
    if e == 0 {
      DividesBy(1, 1, 1);
      DividesBy(n, 1, n);
      assert Combination(1, 0, 1, n, 1);
    } else {
      CoprimePower(a, e - 1, n);
      CoprimeProduct(a, Pow(a, e - 1), n);
    }
  }

  /** For a base prime to the modulus: if and only if E is odd. */
  lemma NegativeBaseCoprime(a: nat, e: nat, nn: nat)
    requires nn > 1 && nn % 2 == 1 && IsGcd(1, a, nn)
    ensures ExpResult(-1, a, e, nn) == Mod(Pow(-(a as int), e), nn) <==> e % 2 == 1
  {
    NegativeBaseRight(a, e, nn);
    if Divides(nn, Pow(a, e)) {
      CoprimePower(a, e, nn);
      DividesSelf(nn);
      GcdGreatest(1, Pow(a, e), nn, nn);
      DividesLe(nn, 1);
    }
  }

  /** (-3)^1 modulo 3 comes out as 3 instead of 0, and (-2)^2 modulo 5 as 1 instead of 4. */
  lemma NegativeBaseMisses()
    ensures ExpResult(-1, 3, 1, 3) == 3 && Mod(Pow(-3, 1), 3) == 0
    ensures ExpResult(-1, 2, 2, 5) == 1 && Mod(Pow(-2, 2), 5) == 4
  {
    assert Pow(3, 1) == 3 * Pow(3, 0) && Pow(-3, 1) == -3 * Pow(-3, 0);
    assert Pow(2, 1) == 2 * Pow(2, 0) && Pow(-2, 1) == -2 * Pow(-2, 0);
    assert Pow(2, 2) == 2 * Pow(2, 1) && Pow(-2, 2) == -2 * Pow(-2, 1);
  }

  /** For a negative base the result is congruent to A^E exactly when E is odd or N divides the power. */
  lemma NegativeBaseCongruent(a: nat, e: nat, nn: nat)
    requires nn > 0 && nn % 2 == 1
    ensures Cong(ExpResult(-1, a, e, nn), Pow(-(a as int), e), nn) <==> e % 2 == 1 || Mod(Pow(a, e), nn) == 0
  {
    var p := Pow(a, e);
    var x: int := Mod(p, nn);
    PowNegated(a, e);
    CongModulus(p, nn);
    CongBy(1, nn - x, 0 - x, nn);
    CongRefl(0, nn);
    CongAdd(0, 0, x, p, nn);
    CongTrans(nn - x, 0 - x, 0 - p, nn);
    if e % 2 == 0 {
      if Cong(nn - x, p, nn) {
        TwiceZero(nn - x, p, nn);
        CongIsMod(p, 0, nn);
      } else if x == 0 {
        CongIsMod(p, 0, nn);
        ZeroBoth(nn - x, p, nn);
      }
    }
  }

  lemma ZeroBoth(y: int, p: int, nn: int)
    requires Cong(y, 0 - p, nn) && Cong(p, 0, nn)
    ensures Cong(y, p, nn)
  {
    CongMul(p, 0, -1, nn);
    CongSym(p, 0, nn);
    CongTrans(0 - p, 0, p, nn);
    CongTrans(y, 0 - p, p, nn);
  }

  /** Modulo an odd number, a value congruent to both p and -p makes p zero. */
  lemma TwiceZero(y: int, p: int, nn: int)
    requires nn % 2 == 1 && Cong(y, p, nn) && Cong(y, 0 - p, nn)
    ensures Cong(p, 0, nn)
  {
    CongSym(y, 0 - p, nn);
    CongTrans(0 - p, y, p, nn);
    CongSym(0 - p, p, nn);
    OddCoprimeTwo(nn);
    CoprimeCancel(2, p, nn);
  }
}
