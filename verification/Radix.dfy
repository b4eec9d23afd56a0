/** The remainder by one limb, taken half a limb at a time, and the moduli for which it is right. */
module Radix {
  import opened Limbs
  import opened Bits
  import opened Mul
  import opened NumberTheory
  import opened BigNum
  import opened Shifts
  import opened Division

  // ---------------------------------------------------------------- the remainder by half limbs

  /** One half limb more: the shift by 16 bits drops what leaves the limb. */
  function HalfStep(y: nat, half: nat, b: nat): (r: nat)
    requires b > 0
    ensures r < b
  {
    (y * 0x1_0000 % 0x1_0000_0000 + half) % b
  }

  function LimbStep(y: nat, x: Limb, b: nat): (r: nat)
    requires b > 0
    ensures r < b
  {
    HalfStep(HalfStep(y, x / 0x1_0000, b), x % 0x1_0000, b)
  }

  /** What the loop leaves after the limbs of `p`, the top limb first. */
  ghost function HalfLimbMod(p: seq<Limb>, b: nat): (r: nat)
    requires b > 0
    ensures r < b
  {
    if p == [] then 0 else LimbStep(HalfLimbMod(p[1..], b), p[0], b)
  }

  /** mpi_mod_int; with more than 16 bits in `b` the loop may lose bits of the remainder. */
  method ModInt(A: Mpi, b: int) returns (ret: Ret, r: nat)
    requires A.Num() && -0x8000_0000 <= b < 0x8000_0000
    ensures ret == (if b == 0 then DivisionByZero else if b < 0 then NegativeValue else Success)
    ensures ret == Success && b > 2 ==>
              r == var y := HalfLimbMod(A.p, b); if A.s < 0 && y != 0 then b - y else y
    ensures ret == Success && ModIntSafe(b) ==> r == Mod(A.Int(), b)
  {
    r := 0;
    if b == 0 {
      return DivisionByZero, 0;
    }
    if b < 0 {
      return NegativeValue, 0;
    }
    if b == 1 {
      return Success, 0;
    }
    if b == 2 {
      Parity2(A.p);
      return Success, A.p[0] % 2;
    }
    var i := |A.p|;
    var y := 0;
    assert A.p[i..] == [];
    while i > 0
      invariant 0 <= i <= |A.p|
      invariant y == HalfLimbMod(A.p[i..], b)
    {
      assert A.p[i - 1..][1..] == A.p[i..];
      var x := A.p[i - 1];
      y := HalfStep(y, x / 0x1_0000, b);
      y := HalfStep(y, x % 0x1_0000, b);
      i := i - 1;
    }
    assert A.p[0..] == A.p;
    if ModIntSafe(b) {
      HalfLimbIsMod(A.p, b);
      ModOfSigned(A.s, A.Abs(), b);
    }
    if A.s < 0 && y != 0 {
      y := b - y;
    }
    return Success, y;
  }

  lemma Parity2(p: seq<Limb>)
    requires p != []
    ensures Val(p) % 2 == p[0] % 2 && (0 - Val(p)) % 2 == p[0] % 2
  {
  }

  /** The moduli the half-limb loop is exact for: at most 16 bits, or a power of two. */
  ghost predicate ModIntSafe(b: nat) {
    b <= 0x1_0000 || Divides(b, 0x1_0000_0000)
  }

  lemma HalfWrap(y: nat, b: nat)
    requires b > 0 && y < b && ModIntSafe(b)
    ensures Cong(y * 0x1_0000 % 0x1_0000_0000, y * 0x1_0000, b)
  {
    if b <= 0x1_0000 {
      CongRefl(y * 0x1_0000, b);
    } else {
      CongModulus(y * 0x1_0000, 0x1_0000_0000);
      CongDivisor(y * 0x1_0000 % 0x1_0000_0000, y * 0x1_0000, b, 0x1_0000_0000);
    }
  }

  lemma HalfExact(y: nat, half: nat, b: nat, v: int)
    requires b > 0 && y < b && ModIntSafe(b) && Cong(y, v, b)
    ensures Cong(HalfStep(y, half, b), v * 0x1_0000 + half, b)
  {
    var w := y * 0x1_0000 % 0x1_0000_0000;
    HalfWrap(y, b);
    CongMul(y, v, 0x1_0000, b);
    CongTrans(w, y * 0x1_0000, v * 0x1_0000, b);
    CongRefl(half, b);
    CongAdd(w, v * 0x1_0000, half, half, b);
    CongModulus(w + half, b);
    CongTrans((w + half) % b, w + half, v * 0x1_0000 + half, b);
  }

  lemma LimbHalves(x: int)
    ensures x / 0x1_0000 * 0x1_0000 + x % 0x1_0000 == x
  {
  }

  lemma {:induction false} HalfLimbExact(p: seq<Limb>, b: nat)
    requires b > 0 && ModIntSafe(b)
    ensures Cong(HalfLimbMod(p, b), Val(p), b)
  {
    if p == [] {
      CongRefl(0, b);
    } else {
      HalfLimbExact(p[1..], b);
      var v, x := Val(p[1..]), p[0] as int;
      var y := HalfLimbMod(p[1..], b);
      HalfExact(y, x / 0x1_0000, b, v);
      HalfExact(HalfStep(y, x / 0x1_0000, b), x % 0x1_0000, b, v * 0x1_0000 + x / 0x1_0000);
      LimbHalves(x);
    }
  }

  /** With such a modulus the loop leaves the remainder of the number. */
  lemma HalfLimbIsMod(p: seq<Limb>, b: nat)
    requires b > 0 && ModIntSafe(b)
    ensures HalfLimbMod(p, b) == Mod(Val(p), b)
  {
    HalfLimbExact(p, b);
    CongIsMod(HalfLimbMod(p, b), Val(p), b);
    SmallMod(HalfLimbMod(p, b), b);
  }

  lemma SmallMod(y: nat, b: nat)
    requires y < b
    ensures y % b == y
  {
    DivUnique(y, b, 0, y);
  }

  // ---------------------------------------------------------------- and for no others

  lemma OddHalf(b: nat, m: int)
    requires b % 2 == 1 && Divides(b, 2 * m)
    ensures Divides(b, m)
  {
    OddCoprimeTwo(b);
    CoprimeCancel(2, m, b);
  }

  lemma EvenHalf(c: nat, m: int)
    requires Divides(2 * c, 2 * m)
    ensures Divides(c, m)
  {
    var k := Quotient(2 * c, 2 * m);
    MulSwap(k, 2, c);
    DividesBy(k, c, m);
  }

  lemma TwiceBoth(c: nat, m: int)
    requires Divides(c, m)
    ensures Divides(2 * c, 2 * m)
  {
    var k := Quotient(c, m);
    MulSwap(k, 2, c);
    DividesBy(k, 2 * c, 2 * m);
  }

  lemma OneDivides(n: int)
    ensures Divides(1, n)
  {
    DividesBy(n, 1, n);
  }

  /** A divisor of a power of two that is below a smaller power of two divides that one. */
  lemma {:induction false} PowerDivisor(b: nat, k: nat, j: nat)
    requires b > 0 && Divides(b, P2(k)) && b < P2(j)
    ensures Divides(b, P2(j))
    decreases k, j
  {
    if b == 1 {
      OneDivides(P2(j));
    } else if k == 0 {
      DividesLe(b, 1);
    } else if b % 2 == 1 {
      OddHalf(b, P2(k - 1));
      PowerDivisor(b, k - 1, j);
    } else {
      EvenHalf(b / 2, P2(k - 1));
      PowerDivisor(b / 2, k - 1, j - 1);
      TwiceBoth(b / 2, P2(j - 1));
    }
  }

  /** The number on which a modulus of more than 16 bits goes wrong, unless it is a power of two. */
  const WITNESS: seq<Limb> := [0, 0x1_0000]

  lemma WitnessValue()
    ensures Val(WITNESS) == P2(48)
  {
    P2Of32();
    P2Add(8, 8);
    P2Add(16, 32);
    assert WITNESS[1..] == [0x1_0000];
    assert Val([0x1_0000]) == 0x1_0000 + 0x1_0000_0000 * Val([]);
  }

  lemma WitnessLost(b: nat)
    requires b > 0x1_0000
    ensures HalfLimbMod(WITNESS, b) == 0
  {
    assert WITNESS[1..] == [0x1_0000] && [0x1_0000][1..] == [];
    SmallMod(0, b);
    SmallMod(1, b);
    SmallMod(0x1_0000, b);
    assert HalfLimbMod([0x1_0000], b) == LimbStep(0, 0x1_0000, b);
    assert HalfStep(0, 1, b) == 1;
    assert HalfStep(1, 0, b) == 0x1_0000;
    assert HalfStep(0x1_0000, 0, b) == 0;
    assert HalfStep(0, 0, b) == 0;
  }

  ghost predicate ExactFor(p: seq<Limb>, b: nat)
    requires b > 0
  {
    HalfLimbMod(p, b) == Mod(Val(p), b)
  }

  /** The loop gives the remainder of every number exactly when the modulus is a safe one. */
  lemma ModIntExact(b: nat)
    requires 0 < b < 0x8000_0000
    ensures (forall p: seq<Limb> :: ExactFor(p, b)) <==> ModIntSafe(b)
  {
    if ModIntSafe(b) {
      forall p: seq<Limb>
        ensures ExactFor(p, b)
      {
        HalfLimbIsMod(p, b);
      }
    } else if ExactFor(WITNESS, b) {
      WitnessLost(b);
      WitnessValue();
      DivDef(P2(48), b);
      DividesBy(P2(48) / b, b, P2(48));
      P2Of32();
      PowerDivisor(b, 48, 32);
      assert false;
    }
  }
}
