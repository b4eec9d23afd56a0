/** Multi-precision integers: the mpi structure and its sign-and-magnitude arithmetic. */
module BigNum {
  import opened Limbs
  import opened Bits
  import opened Mul

  /** Return codes of the library. */
  datatype Ret =
    Success | BadInputData | InvalidCharacter | BufferTooSmall | NegativeValue | DivisionByZero | NotAcceptable

  /** The mpi structure: sign s, and the limb buffer p whose length is the field n. */
  class Mpi {
    var s: int
    var p: seq<Limb>

    /** mpi_init. */
    constructor ()
      ensures s == 1 && p == []
    {
      s, p := 1, [];
    }

    /** An operand: at least one limb and a sign of 1 or -1. */
    ghost predicate Num()
      reads this
    {
      |p| >= 1 && (s == 1 || s == -1)
    }

    ghost function Abs(): nat
      reads this
    {
      Val(p)
    }

    ghost function Int(): int
      reads this
    {
      Signed(s, Val(p))
    }
  }

  /** Sign and magnitude. */
  ghost function Signed(s: int, v: nat): int {
    if s < 0 then 0 - v else v
  }

  function Max(a: int, b: int): int {
    if a < b then b else a
  }

  /** Unsigned 32-bit arithmetic wraps around. */
  function WrapAdd(x: int, y: int): Limb {
    (x + y) % 0x1_0000_0000
  }

  function WrapSub(x: int, y: int): Limb {
    (x - y) % 0x1_0000_0000
  }

  /** mpi_grow. */
  method Grow(X: Mpi, n: nat)
    modifies X`p
    ensures |X.p| == Max(old(|X.p|), n)
    ensures X.Abs() == old(X.Abs())
    ensures X.p == old(X.p) + Zeros(Max(0, n - old(|X.p|)))
    ensures n <= old(|X.p|) ==> X.p == old(X.p)
  {
    if |X.p| < n {
      ValPad(X.p, n - |X.p|);
      X.p := X.p + Zeros(n - |X.p|);
    }
  }

  /** The loop "skip leading zero limbs" that opens most operations. */
  method Significant(Y: Mpi) returns (i: nat)
    ensures i <= |Y.p|
    ensures i == LimbLen(Y.Abs())
    ensures Y.Abs() == Val(Y.p[..i])
    ensures i > 0 ==> Y.p[i - 1] != 0
  {
    i := |Y.p|;
    while i > 0 && Y.p[i - 1] == 0
      invariant i <= |Y.p|
      invariant forall k :: i <= k < |Y.p| ==> Y.p[k] == 0
    {
      i := i - 1;
    }
    ValTrim(Y.p, i);
    ValBound(Y.p[..i]);
    if i > 0 {
      ValTop(Y.p, i - 1);
    }
    LimbLenUnique(Y.Abs(), i);
  }

  /** mpi_copy. */
  method Copy(X: Mpi, Y: Mpi)
    requires Y.Num()
    modifies X
    ensures X == Y ==> X.s == old(X.s) && X.p == old(X.p)
    ensures X.Num() && X.s == old(Y.s) && X.Abs() == old(Y.Abs()) && X.Int() == old(Y.Int())
    ensures X != Y ==> |X.p| == Max(old(|X.p|), Max(1, LimbLen(old(Y.Abs()))))
  {
    if X == Y {
      return;
    }
    var i := |Y.p| - 1;
    while i > 0 && Y.p[i] == 0
      invariant 0 <= i < |Y.p|
      invariant forall k :: i < k < |Y.p| ==> Y.p[k] == 0
    {
      i := i - 1;
    }
    i := i + 1;
    CopyLength(Y.p, i);
    X.s := Y.s;
    Grow(X, i);
    ValPad(Y.p[..i], |X.p| - i);
    X.p := Y.p[..i] + Zeros(|X.p| - i);
  }

  lemma CopyLength(p: seq<Limb>, i: nat)
    requires 1 <= i <= |p|
    requires forall k :: i <= k < |p| ==> p[k] == 0
    requires i > 1 ==> p[i - 1] != 0
    ensures Val(p[..i]) == Val(p)
    ensures i == Max(1, LimbLen(Val(p)))
  {
    ValTrim(p, i);
    if p[i - 1] != 0 {
      ValBound(p[..i]);
      ValTop(p, i - 1);
      LimbLenUnique(Val(p), i);
    } else {
      ValZeros(p);
    }
  }

  /** mpi_lset. */
  method Lset(X: Mpi, z: int)
    requires -0x8000_0000 <= z < 0x8000_0000
    modifies X
    ensures X.Num() && X.Int() == z && X.s == (if z < 0 then -1 else 1)
    ensures |X.p| == Max(old(|X.p|), 1)
  {
    Grow(X, 1);
    var m: Limb := if z < 0 then -z else z;
    X.p := [m] + Zeros(|X.p| - 1);
    ValPad([m], |X.p| - 1);
    ValOne([m]);
    X.s := if z < 0 then -1 else 1;
  }

  /** The one-limb operand that the _int variants build on the stack. */
  method OneLimb(z: int) returns (Y: Mpi)
    requires -0x8000_0000 <= z < 0x8000_0000
    ensures fresh(Y) && Y.Num() && Y.Int() == z && |Y.p| == 1 && Y.s == (if z < 0 then -1 else 1)
  {
    Y := new Mpi();
    Y.p := [if z < 0 then -z else z];
    Y.s := if z < 0 then -1 else 1;
    ValOne(Y.p);
  }

  function Sgn(x: int): int {
    if x < 0 then -1 else if x > 0 then 1 else 0
  }

  /** Comparing from the top limb down. */
  method CmpLimbs(X: Mpi, Y: Mpi, n: nat) returns (r: int)
    requires n <= |X.p| && n <= |Y.p|
    ensures r == Sgn(Val(X.p[..n]) - Val(Y.p[..n]))
  {
    var i := n;
    while i > 0
      invariant 0 <= i <= n
      invariant Sgn(Val(X.p[..n]) - Val(Y.p[..n])) == Sgn(Val(X.p[..i]) - Val(Y.p[..i]))
    {
      CmpTop(X.p, Y.p, i);
      if X.p[i - 1] > Y.p[i - 1] {
        return 1;
      }
      if X.p[i - 1] < Y.p[i - 1] {
        return -1;
      }
      i := i - 1;
    }
    assert X.p[..0] == [] && Y.p[..0] == [];
    r := 0;
  }

  lemma CmpTop(x: seq<Limb>, y: seq<Limb>, i: nat)
    requires 0 < i <= |x| && i <= |y|
    ensures x[i - 1] == y[i - 1] ==> Val(x[..i]) - Val(y[..i]) == Val(x[..i - 1]) - Val(y[..i - 1])
    ensures x[i - 1] > y[i - 1] ==> Val(x[..i]) > Val(y[..i])
    ensures x[i - 1] < y[i - 1] ==> Val(x[..i]) < Val(y[..i])
  {
    ValPrefix(x, i - 1);
    ValPrefix(y, i - 1);
    ValBound(x[..i - 1]);
    ValBound(y[..i - 1]);
    var w := Pw(i - 1);
    if x[i - 1] > y[i - 1] {
      MulLe(y[i - 1] + 1, x[i - 1], w);
      MulAdd(y[i - 1], 1, w);
    } else if x[i - 1] < y[i - 1] {
      MulLe(x[i - 1] + 1, y[i - 1], w);
      MulAdd(x[i - 1], 1, w);
    }
  }

  lemma LimbLenMonotone(x: nat, y: nat)
    ensures LimbLen(x) < LimbLen(y) ==> x < y
    ensures LimbLen(x) == 0 <==> x == 0
  {
    if LimbLen(x) < LimbLen(y) {
      LimbLenBounds(x);
      LimbLenBounds(y);
      PwMonotone(LimbLen(x), LimbLen(y) - 1);
    }
  }

  /** mpi_cmp_abs. */
  method CmpAbs(X: Mpi, Y: Mpi) returns (r: int)
    ensures r == Sgn(X.Abs() - Y.Abs())
  {
    var i := Significant(X);
    var j := Significant(Y);
    LimbLenMonotone(X.Abs(), Y.Abs());
    LimbLenMonotone(Y.Abs(), X.Abs());
    if i == 0 && j == 0 {
      return 0;
    }
    if i > j {
      return 1;
    }
    if j > i {
      return -1;
    }
    r := CmpLimbs(X, Y, i);
  }

  /** mpi_cmp_mpi.  A number without limbs counts as zero. */
  method CmpMpi(X: Mpi, Y: Mpi) returns (r: int)
    requires (X.s == 1 || X.s == -1) && (Y.s == 1 || Y.s == -1)
    ensures r == Sgn(X.Int() - Y.Int())
  {
    var i := Significant(X);
    var j := Significant(Y);
    LimbLenMonotone(X.Abs(), Y.Abs());
    LimbLenMonotone(Y.Abs(), X.Abs());
    if i == 0 && j == 0 {
      return 0;
    }
    if i > j {
      return X.s;
    }
    if j > i {
      return -Y.s;
    }
    if X.s > 0 && Y.s < 0 {
      return 1;
    }
    if Y.s > 0 && X.s < 0 {
      return -1;
    }
    r := CmpLimbs(X, Y, i);
    r := if X.s > 0 then r else -r;
  }

  /** mpi_cmp_int. */
  method CmpInt(X: Mpi, z: int) returns (r: int)
    requires (X.s == 1 || X.s == -1) && -0x8000_0000 <= z < 0x8000_0000
    ensures r == Sgn(X.Int() - z)
  {
    var Y := OneLimb(z);
    r := CmpMpi(X, Y);
  }

  /** What an in-place doubling without carries leaves. */
  function Doubled(p: seq<Limb>): (d: seq<Limb>)
    ensures |d| == |p|
  {
    if p == [] then [] else [WrapAdd(p[0], p[0])] + Doubled(p[1..])
  }

  lemma {:induction false} DoubledAt(p: seq<Limb>, i: nat)
    requires i < |p|
    ensures Doubled(p)[i] == WrapAdd(p[i], p[i])
  {
    if i > 0 {
      DoubledAt(p[1..], i - 1);
    }
  }

  /** Adding a number to itself in place is right exactly when no limb has its top bit set. */
  lemma {:induction false} DoubledExact(p: seq<Limb>)
    ensures Val(Doubled(p)) <= 2 * Val(p)
    ensures Val(Doubled(p)) == 2 * Val(p) <==> forall i :: 0 <= i < |p| ==> p[i] < 0x8000_0000
  {
    if p != [] {
      DoubledExact(p[1..]);
      assert Doubled(p)[1..] == Doubled(p[1..]);
      assert p == [p[0]] + p[1..];
    }
  }

  /** The weight of a carry or borrow bit c at limb k. */
  ghost function Bit(c: int, k: nat): nat {
    if c == 0 then 0 else Pw(k)
  }

  /** What the limb loop of mpi_add_abs keeps: x is the buffer after i limbs and c the carry. */
  ghost predicate Adding(x: seq<Limb>, x0: seq<Limb>, b: seq<Limb>, i: nat, c: int) {
    |x| == |x0| && i <= |x| && i <= |b| && (c == 0 || c == 1) &&
    Val(x) + Bit(c, i) == Val(x0) + Val(b[..i])
  }

  lemma BitTimes(c: int, k: nat)
    requires c == 0 || c == 1
    ensures c * Pw(k) == Bit(c, k) && (-c) * Pw(k) == 0 - Bit(c, k)
  {
  }

  lemma AddStep(x: seq<Limb>, x0: seq<Limb>, b: seq<Limb>, i: nat, cin: int, v: Limb, c: int)
    requires Adding(x, x0, b, i, cin)
    requires i < |x| && i < |b| && (c == 0 || c == 1)
    requires v + c * 0x1_0000_0000 == x[i] + cin + b[i]
    ensures Adding(x[i := v], x0, b, i + 1, c)
  {
    CarryStep(x, i, v, cin, c, b[i]);
    BitTimes(cin, i);
    BitTimes(c, i + 1);
    ValPrefix(b, i);
  }

  /** The same for a buffer that is added to itself. */
  ghost predicate Doubling(x: seq<Limb>, x0: seq<Limb>, i: nat) {
    |x| == |x0| && i <= |x| && x == Doubled(x0)[..i] + x0[i..]
  }

  lemma DoubleStep(x: seq<Limb>, x0: seq<Limb>, i: nat)
    requires Doubling(x, x0, i) && i < |x|
    ensures x[i] == x0[i]
    ensures Doubling(x[i := WrapAdd(x[i], x[i])], x0, i + 1)
  {
    DoubledAt(x0, i);
  }

  lemma DoubledZeros(p: seq<Limb>, j: nat, x: seq<Limb>)
    requires Doubling(x, p, j)
    requires forall k :: j <= k < |p| ==> p[k] == 0
    ensures x == Doubled(p)
  {
    forall k | 0 <= k < |p| ensures x[k] == Doubled(p)[k] {
      DoubledAt(p, k);
    }
  }

  /** The limb loop of mpi_add_abs: j limbs of B are added into X; c is the carry out. */
  method AddLimbs(X: Mpi, B: Mpi, j: nat) returns (c: int)
    requires j <= |X.p| && j <= |B.p|
    requires X == B ==> forall k :: j <= k < |X.p| ==> X.p[k] == 0
    modifies X`p
    ensures X != B ==> Adding(X.p, old(X.p), B.p, j, c)
    ensures X == B ==> X.p == Doubled(old(X.p)) && c == 0
  {
    ghost var x0 := X.p;
    c := 0;
    var i := 0;
    assert x0[..0] == [];
    while i < j
      invariant 0 <= i <= j
      invariant X != B ==> Adding(X.p, x0, B.p, i, c)
      invariant X == B ==> Doubling(X.p, x0, i) && c == 0
    {
      ghost var x, cin := X.p, c;
      if X == B {
        DoubleStep(x, x0, i);
      }
      c := AddOne(X, B, i, c);
      if X != B {
        AddStep(x, x0, B.p, i, cin, X.p[i], c);
      }
      i := i + 1;
    }
    if X == B {
      DoubledZeros(x0, j, X.p);
    }
  }

  /** One limb of mpi_add_abs: the carry test reads the limb of B again after the write. */
  method AddOne(X: Mpi, B: Mpi, i: nat, c0: int) returns (c: int)
    requires i < |X.p| && i < |B.p| && (c0 == 0 || c0 == 1)
    modifies X`p
    ensures |X.p| == old(|X.p|) && X.p == old(X.p)[i := X.p[i]]
    ensures c == 0 || c == 1
    ensures X != B ==> X.p[i] + c * 0x1_0000_0000 == old(X.p[i]) + c0 + B.p[i]
    ensures X == B && c0 == 0 ==> c == 0 && X.p[i] == WrapAdd(old(X.p[i]), old(X.p[i]))
  {
    X.p := X.p[i := WrapAdd(X.p[i], c0)];
    c := if X.p[i] < c0 then 1 else 0;
    X.p := X.p[i := WrapAdd(X.p[i], B.p[i])];
    c := c + if X.p[i] < B.p[i] then 1 else 0;
  }

  /** mpi_add_abs. */
  method AddAbs(X: Mpi, A: Mpi, B: Mpi)
    requires A.Num() && B.Num()
    modifies X
    ensures X.Num() && X.s == 1 && |X.p| >= old(|X.p|)
    ensures !(X == A && A == B) ==> X.Abs() == old(A.Abs()) + old(B.Abs())
    ensures X == A && A == B ==> X.p == Doubled(old(X.p))
  {
    var a, b := A, B;
    if X == b {
      a, b := X, A;
    }
    if X != a {
      Copy(X, a);
    }
    X.s := 1;
    AddInto(X, b);
  }

  /** The part of mpi_add_abs after X holds the first operand. */
  method AddInto(X: Mpi, B: Mpi)
    requires X.Num() && B.Num()
    modifies X`p
    ensures X.Num() && |X.p| >= old(|X.p|)
    ensures X != B ==> X.Abs() == old(X.Abs()) + B.Abs()
    ensures X == B ==> X.p == Doubled(old(X.p))
  {
    var j := Significant(B);
    if X == B {
      LimbLenBounds(B.Abs());
      ValHighZero(B.p, j);
    }
    Grow(X, j);
    var c := AddLimbs(X, B, j);
    PropagateCarry(X, j, c);
  }

  lemma RippleStep(x: seq<Limb>, i: nat, v: Limb, c: int)
    requires i < |x| && (c == 0 || c == 1)
    requires v + c * 0x1_0000_0000 == x[i] as int + 1
    ensures Val(x[i := v]) + Bit(c, i + 1) == Val(x) + Pw(i)
  {
    CarryStep(x, i, v, 1, c, 0);
    BitTimes(c, i + 1);
  }

  /** The carry loop of mpi_add_abs, which grows X when the carry leaves it. */
  method PropagateCarry(X: Mpi, j: nat, c0: int)
    requires c0 == 0 || c0 == 1
    requires j <= |X.p|
    modifies X`p
    ensures |X.p| >= old(|X.p|)
    ensures c0 == 0 ==> X.p == old(X.p)
    ensures c0 == 1 ==> X.Abs() == old(X.Abs()) + Pw(j)
  {
    ghost var target := Val(X.p) + Pw(j);
    var c, i := c0, j;
    while c != 0
      invariant 0 <= i <= |X.p| && |X.p| >= old(|X.p|) && (c == 0 || c == 1)
      invariant c0 == 1 ==> Val(X.p) + Bit(c, i) == target
      invariant c0 == 0 ==> X.p == old(X.p) && c == 0
      decreases c, if i < |X.p| then |X.p| - i else 0
    {
      if i >= |X.p| {
        Grow(X, i + 1);
      }
      ghost var x := X.p;
      X.p := X.p[i := WrapAdd(X.p[i], c)];
      c := if X.p[i] < c then 1 else 0;
      RippleStep(x, i, X.p[i], c);
      i := i + 1;
    }
  }

  /** What mpi_sub_hlp keeps: d is the buffer after i limbs of s, c the borrow; limbs from lim on are untouched. */
  ghost predicate Borrowing(d: seq<Limb>, d0: seq<Limb>, sub: nat, i: nat, c: int, lim: nat) {
    lim <= |d| == |d0| && (c == 0 || c == 1) &&
    d[lim..] == d0[lim..] &&
    Val(d) + sub == Val(d0) + Bit(c, i)
  }

  lemma BorrowStep(d: seq<Limb>, d0: seq<Limb>, s: seq<Limb>, i: nat, cin: int, v: Limb, c: int, lim: nat)
    requires i < lim && i < |s|
    requires Borrowing(d, d0, Val(s[..i]), i, cin, lim) && (c == 0 || c == 1)
    requires v as int - c * 0x1_0000_0000 == d[i] as int - cin - s[i] as int
    ensures Borrowing(d[i := v], d0, Val(s[..i + 1]), i + 1, c, lim)
  {
    CarryStep(d, i, v, -cin, -c, -(s[i] as int));
    BitTimes(cin, i);
    BitTimes(c, i + 1);
    ValPrefix(s, i);
    MulSub(0, s[i], Pw(i));
  }

  lemma BorrowRipple(d: seq<Limb>, d0: seq<Limb>, sub: nat, i: nat, v: Limb, c: int, lim: nat)
    requires i < lim
    requires Borrowing(d, d0, sub, i, 1, lim) && (c == 0 || c == 1)
    requires v as int - c * 0x1_0000_0000 == d[i] as int - 1
    ensures Borrowing(d[i := v], d0, sub, i + 1, c, lim)
  {
    CarryStep(d, i, v, -1, -c, 0);
    BitTimes(1, i);
    BitTimes(c, i + 1);
  }

  lemma BorrowFits(d: seq<Limb>, d0: seq<Limb>, sub: nat, i: nat, lim: nat)
    requires Borrowing(d, d0, sub, i, 1, lim)
    requires sub <= Val(d0[..lim])
    ensures i < lim
  {
    BorrowStays(d, d0, lim, i, 1, sub);
  }

  /** mpi_sub_hlp: the low n limbs of S are taken from D.  When they fit in the low lim limbs
      of D, no limb from lim on is touched, so the borrow never runs off. */
  method SubHlp(n: nat, S: Mpi, D: Mpi, ghost lim: nat)
    requires S != D && n <= |S.p| && n <= lim <= |D.p|
    requires Val(S.p[..n]) <= Val(D.p[..lim])
    modifies D`p
    ensures |D.p| == old(|D.p|)
    ensures D.Abs() == old(D.Abs()) - Val(S.p[..n])
    ensures D.p[lim..] == old(D.p[lim..])
  {
    ghost var d0 := D.p;
    var c, i := 0, 0;
    assert S.p[..0] == [];
    while i < n
      invariant 0 <= i <= n
      invariant Borrowing(D.p, d0, Val(S.p[..i]), i, c, lim)
    {
      ghost var d, cin := D.p, c;
      c := SubOne(S, D, i, c);
      BorrowStep(d, d0, S.p, i, cin, D.p[i], c, lim);
      i := i + 1;
    }
    SubRipple(D, i, c, d0, Val(S.p[..n]), lim);
  }

  /** One limb of mpi_sub_hlp. */
  method SubOne(S: Mpi, D: Mpi, i: nat, c0: int) returns (c: int)
    requires S != D && i < |S.p| && i < |D.p| && (c0 == 0 || c0 == 1)
    modifies D`p
    ensures |D.p| == old(|D.p|) && D.p == old(D.p)[i := D.p[i]]
    ensures c == 0 || c == 1
    ensures D.p[i] as int - c * 0x1_0000_0000 == old(D.p[i]) as int - c0 - S.p[i] as int
  {
    var z := if D.p[i] < c0 then 1 else 0;
    D.p := D.p[i := WrapSub(D.p[i], c0)];
    c := z + if D.p[i] < S.p[i] then 1 else 0;
    D.p := D.p[i := WrapSub(D.p[i], S.p[i])];
  }

  /** The loop of mpi_sub_hlp that lets the borrow run on. */
  method SubRipple(D: Mpi, i0: nat, c0: int, ghost d0: seq<Limb>, ghost sub: nat, ghost lim: nat)
    requires Borrowing(D.p, d0, sub, i0, c0, lim)
    requires sub <= Val(d0[..lim])
    modifies D`p
    ensures exists i: nat :: Borrowing(D.p, d0, sub, i, 0, lim)
  {
    var c, i := c0, i0;
    while c != 0
      invariant 0 <= i
      invariant Borrowing(D.p, d0, sub, i, c, lim)
      decreases lim - i
    {
      BorrowFits(D.p, d0, sub, i, lim);
      ghost var d := D.p;
      var z := if D.p[i] < c then 1 else 0;
      D.p := D.p[i := WrapSub(D.p[i], c)];
      BorrowRipple(d, d0, sub, i, D.p[i], z, lim);
      c := z;
      i := i + 1;
    }
  }

  /** mpi_sub_abs. */
  method SubAbs(X: Mpi, A: Mpi, B: Mpi) returns (ret: Ret)
    requires A.Num() && B.Num()
    modifies X
    ensures old(A.Abs()) < old(B.Abs()) <==> ret == NegativeValue
    ensures ret == NegativeValue ==> X.s == old(X.s) && X.p == old(X.p)
    ensures ret != NegativeValue ==> ret == Success && X.Num() && X.s == 1 && |X.p| >= old(|X.p|)
    ensures ret != NegativeValue ==> X.Abs() == old(A.Abs()) - old(B.Abs())
  {
    var r := CmpAbs(A, B);
    if r < 0 {
      return NegativeValue;
    }
    var b := B;
    if X == B {
      b := new Mpi();
      Copy(b, B);
    }
    if X != A {
      Copy(X, A);
    }
    X.s := 1;
    var n := Significant(b);
    SubtrahendFits(X.p, b.p, n);
    SubHlp(n, b, X, |X.p|);
    return Success;
  }

  lemma SubtrahendFits(x: seq<Limb>, b: seq<Limb>, n: nat)
    requires n == LimbLen(Val(b)) && Val(b) <= Val(x)
    ensures n <= |x| && x[..|x|] == x
  {
    LimbLenBounds(Val(b));
    ValBound(x);
    if n > |x| {
      PwMonotone(|x|, n - 1);
    }
  }

  /** mpi_add_mpi. */
  method AddMpi(X: Mpi, A: Mpi, B: Mpi)
    requires A.Num() && B.Num()
    modifies X
    ensures X.Num() && |X.p| >= old(|X.p|)
    ensures !(X == A && A == B) ==> X.Int() == old(A.Int()) + old(B.Int())
    ensures X == A && A == B ==> X.p == Doubled(old(X.p))
    ensures old(A.s) == old(B.s) ==> X.s == old(A.s)
  {
    var s := A.s;
    if A.s * B.s < 0 {
      var r := CmpAbs(A, B);
      if r >= 0 {
        var ret := SubAbs(X, A, B);
        X.s := s;
      } else {
        var ret := SubAbs(X, B, A);
        X.s := -s;
      }
    } else {
      AddAbs(X, A, B);
      X.s := s;
    }
  }

  /** mpi_sub_mpi. */
  method SubMpi(X: Mpi, A: Mpi, B: Mpi)
    requires A.Num() && B.Num()
    modifies X
    ensures X.Num() && X.Int() == old(A.Int()) - old(B.Int()) && |X.p| >= old(|X.p|)
    ensures old(A.s) != old(B.s) ==> X.s == old(A.s)
  {
    var s := A.s;
    if A.s * B.s > 0 {
      var r := CmpAbs(A, B);
      if r >= 0 {
        var ret := SubAbs(X, A, B);
        X.s := s;
      } else {
        var ret := SubAbs(X, B, A);
        X.s := -s;
      }
    } else {
      AddAbs(X, A, B);
      X.s := s;
    }
  }

  /** mpi_add_int. */
  method AddInt(X: Mpi, A: Mpi, b: int)
    requires A.Num() && -0x8000_0000 <= b < 0x8000_0000
    modifies X
    ensures X.Num() && X.Int() == old(A.Int()) + b && |X.p| >= old(|X.p|)
    ensures b >= 0 && old(A.s) == 1 ==> X.s == 1
  {
    var B := OneLimb(b);
    AddMpi(X, A, B);
  }

  /** mpi_sub_int. */
  method SubInt(X: Mpi, A: Mpi, b: int)
    requires A.Num() && -0x8000_0000 <= b < 0x8000_0000
    modifies X
    ensures X.Num() && X.Int() == old(A.Int()) - b && |X.p| >= old(|X.p|)
    ensures b >= 0 && old(A.s) == -1 ==> X.s == -1
  {
    var B := OneLimb(b);
    SubMpi(X, A, B);
  }

  /** The multiple b * v of a number, moved up o limbs. */
  ghost function Scaled(b: nat, v: nat, o: nat): nat {
    MulNonNeg(b, v);
    MulNonNeg(b * v, Pw(o));
    b * v * Pw(o)
  }

  /** What mpi_mul_hlp keeps: the buffer d with a carry c due at limb k holds what it held before plus add. */
  ghost predicate Carrying(d: seq<Limb>, d0: seq<Limb>, add: nat, k: nat, c: nat, lim: nat) {
    lim <= |d| == |d0| && d[lim..] == d0[lim..] &&
    Val(d) + c * Pw(k) == Val(d0) + add
  }

  lemma ScaledStep(b: nat, s: seq<Limb>, i: nat, o: nat)
    requires i < |s|
    ensures Scaled(b, Val(s[..i + 1]), o) == Scaled(b, Val(s[..i]), o) + (s[i] * b) * Pw(o + i)
  {
    ValPrefix(s, i);
    var v, w, x := Val(s[..i]), Pw(i), Pw(o);
    PwAdd(o, i);
    MulAdd(v, s[i] * w, b);
    MulAdd(b * v, b * (s[i] * w), x);
    ProductOrder(b, s[i], w, x);
  }

  lemma ProductOrder(b: int, s: int, w: int, x: int)
    ensures b * (s * w) * x == (s * b) * (x * w)
  {
    MulAssoc(b, s, w);
    MulAssoc(b * s, w, x);
  }

  lemma MulStep(d: seq<Limb>, d0: seq<Limb>, b: nat, s: seq<Limb>, i: nat, o: nat, cin: nat, v: Limb, c: nat, lim: nat)
    requires i < |s| && o + i < lim
    requires Carrying(d, d0, Scaled(b, Val(s[..i]), o), o + i, cin, lim)
    requires v + c * 0x1_0000_0000 == d[o + i] + cin + s[i] * b
    ensures Carrying(d[o + i := v], d0, Scaled(b, Val(s[..i + 1]), o), o + i + 1, c, lim)
  {
    CarryStep(d, o + i, v, cin, c, s[i] * b);
    ScaledStep(b, s, i, o);
  }

  lemma CarryRipple(d: seq<Limb>, d0: seq<Limb>, add: nat, k: nat, cin: nat, v: Limb, c: nat, lim: nat)
    requires k < lim
    requires Carrying(d, d0, add, k, cin, lim)
    requires v + c * 0x1_0000_0000 == d[k] + cin
    ensures Carrying(d[k := v], d0, add, k + 1, c, lim)
  {
    CarryStep(d, k, v, cin, c, 0);
  }

  lemma CarryFits(d: seq<Limb>, d0: seq<Limb>, add: nat, k: nat, c: nat, lim: nat)
    requires Carrying(d, d0, add, k, c, lim) && c >= 1
    requires Val(d0[..lim]) + add < Pw(lim)
    ensures k < lim
  {
    CarryStays(d, d0, lim, k, c, add);
  }

  /** One MULADDC_CORE: d[k] gets s * b added, with a one-limb carry in and out. */
  method MulAddOne(D: Mpi, k: nat, s: Limb, b: Limb, c0: Limb) returns (c: Limb)
    requires k < |D.p|
    modifies D`p
    ensures |D.p| == old(|D.p|) && D.p == old(D.p)[k := D.p[k]]
    ensures D.p[k] + (c as int) * 0x1_0000_0000 == old(D.p[k]) as int + c0 + s * b
  {
    var t: int := D.p[k] as int + c0 as int + (s as int) * (b as int);
    MulAddBound(D.p[k], c0, s, b);
    c := t / 0x1_0000_0000;
    D.p := D.p[k := t % 0x1_0000_0000];
  }

  lemma MulAddBound(d: Limb, c: Limb, s: Limb, b: Limb)
    ensures 0 <= d as int + c as int + (s as int) * (b as int) < 0x1_0000_0000_0000_0000
  {
    MulLe(s as int, 0xFFFF_FFFF, b as int);
    MulLe(b as int, 0xFFFF_FFFF, 0xFFFF_FFFF);
    MulNonNeg(s as int, b as int);
  }

  /** mpi_mul_hlp: b times the low n limbs of S is added to D from limb o on.  Limbs below o are
      untouched, and when the sum fits in the low lim limbs of D so are those from lim on. */
  method MulHlp(n: nat, S: Mpi, D: Mpi, o: nat, b: Limb, ghost lim: nat)
    requires S != D && n <= |S.p| && o + n < lim <= |D.p|
    requires Val(D.p[..lim]) + Scaled(b, Val(S.p[..n]), o) < Pw(lim)
    modifies D`p
    ensures |D.p| == old(|D.p|)
    ensures D.Abs() == old(D.Abs()) + Scaled(b, Val(S.p[..n]), o)
    ensures D.p[..o] == old(D.p[..o]) && D.p[lim..] == old(D.p[lim..])
  {
    ghost var d0 := D.p;
    var c: Limb, i := 0, 0;
    assert S.p[..0] == [];
    while i < n
      invariant 0 <= i <= n
      invariant Carrying(D.p, d0, Scaled(b, Val(S.p[..i]), o), o + i, c, lim)
      invariant D.p[..o] == d0[..o]
    {
      ghost var d, cin := D.p, c;
      c := MulAddOne(D, o + i, S.p[i], b, c);
      MulStep(d, d0, b, S.p, i, o, cin, D.p[o + i], c, lim);
      i := i + 1;
    }
    MulRipple(D, o + n, c, d0, Scaled(b, Val(S.p[..n]), o), lim);
  }

  /** The do-while loop of mpi_mul_hlp that lets the carry run on. */
  method MulRipple(D: Mpi, k0: nat, c0: Limb, ghost d0: seq<Limb>, ghost add: nat, ghost lim: nat)
    requires k0 < lim
    requires Carrying(D.p, d0, add, k0, c0, lim)
    requires Val(d0[..lim]) + add < Pw(lim)
    modifies D`p
    ensures |D.p| == |d0| && D.p[..k0] == old(D.p[..k0])
    ensures exists k: nat :: Carrying(D.p, d0, add, k, 0, lim)
  {
    var c, k := c0, k0;
    var first := true;
    while first || c != 0
      invariant k0 <= k && (first ==> k < lim)
      invariant |D.p| == |d0| && D.p[..k0] == old(D.p[..k0])
      invariant Carrying(D.p, d0, add, k, c, lim)
      decreases first, lim - k
    {
      if c != 0 {
        CarryFits(D.p, d0, add, k, c, lim);
      }
      first := false;
      ghost var d, cin := D.p, c;
      D.p := D.p[k := WrapAdd(D.p[k], c)];
      c := if D.p[k] < c then 1 else 0;
      CarryRipple(d, d0, add, k, cin, D.p[k], c, lim);
      k := k + 1;
    }
  }

  /** The part of a product that rows j..m of the multiplier b have contributed. */
  ghost function Rows(a: nat, b: seq<Limb>, j: nat, m: nat): nat
    requires j <= m <= |b|
  {
    MulNonNeg(Pw(j), Val(b[j..m]));
    MulNonNeg(a, Pw(j) * Val(b[j..m]));
    a * (Pw(j) * Val(b[j..m]))
  }

  lemma RowStep(a: nat, b: seq<Limb>, j: nat, m: nat)
    requires 0 < j <= m <= |b|
    ensures Rows(a, b, j - 1, m) == Rows(a, b, j, m) + Scaled(b[j - 1], a, j - 1)
  {
    var t := b[j - 1..m];
    assert t[1..] == b[j..m] && t[0] == b[j - 1];
    var w, v := Pw(j - 1), Val(b[j..m]);
    MulAdd(b[j - 1], 0x1_0000_0000 * v, w);
    MulSwap(w, 0x1_0000_0000, v);
    MulAssoc(0x1_0000_0000, w, v);
    MulAdd(b[j - 1] * w, Pw(j) * v, a);
    MulAssoc(a, b[j - 1], w);
  }

  lemma RowsBound(a: nat, b: seq<Limb>, j: nat, m: nat, i: nat)
    requires j <= m <= |b| && a < Pw(i)
    ensures Rows(a, b, j, m) <= a * Val(b[..m]) < Pw(i + m)
    ensures j == 0 ==> Rows(a, b, j, m) == a * Val(b[..m])
  {
    ValSplit(b[..m], j);
    assert b[..m][j..] == b[j..m];
    ValBound(b[..m]);
    MulLe(Pw(j) * Val(b[j..m]), Val(b[..m]), a);
    PwAdd(i, m);
    MulLe(a, Pw(i) - 1, Val(b[..m]));
    MulSub(Pw(i), 1, Val(b[..m]));
    MulLe(Val(b[..m]), Pw(m) - 1, Pw(i));
    MulSub(Pw(m), 1, Pw(i));
  }

  lemma ValLow(p: seq<Limb>, k: nat)
    requires k <= |p| && Val(p) < Pw(k)
    ensures Val(p[..k]) == Val(p)
  {
    ValHighZero(p, k);
    ValTrim(p, k);
  }

  /** The row loop of mpi_mul_mpi, from the top limb of B down. */
  method MulRows(X: Mpi, A: Mpi, B: Mpi, i: nat, m: nat)
    requires X != A && X != B && i <= |A.p| && m <= |B.p| && i + m <= |X.p|
    requires X.Abs() == 0
    modifies X`p
    ensures |X.p| == old(|X.p|) && X.Abs() == Val(A.p[..i]) * Val(B.p[..m])
  {
    var j := m;
    ghost var a := Val(A.p[..i]);
    ValBound(A.p[..i]);
    assert B.p[m..m] == [];
    while j > 0
      invariant 0 <= j <= m && |X.p| == old(|X.p|)
      invariant X.Abs() == Rows(a, B.p, j, m)
    {
      RowsBound(a, B.p, j, m, i);
      RowsBound(a, B.p, j - 1, m, i);
      RowStep(a, B.p, j, m);
      ValLow(X.p, i + m);
      MulHlp(i, A, X, j - 1, B.p[j - 1], i + m);
      j := j - 1;
    }
    RowsBound(a, B.p, 0, m, i);
  }

  /** mpi_mul_mpi: any of X, A, B may be the same number. */
  method MulMpi(X: Mpi, A: Mpi, B: Mpi)
    requires A.Num() && B.Num()
    modifies X
    ensures X.Num() && X.Int() == old(A.Int()) * old(B.Int()) && X.s == old(A.s) * old(B.s)
    ensures |X.p| >= old(|X.p|)
  {
    var a, b := A, B;
    if X == A {
      a := new Mpi();
      Copy(a, A);
    }
    if X == B {
      b := new Mpi();
      Copy(b, B);
    }
    MulInto(X, a, b);
  }

  /** The part of mpi_mul_mpi after the operands are known to be apart from X. */
  method MulInto(X: Mpi, A: Mpi, B: Mpi)
    requires A.Num() && B.Num() && X != A && X != B
    modifies X
    ensures X.Num() && X.Int() == A.Int() * B.Int() && X.s == A.s * B.s
    ensures |X.p| >= old(|X.p|)
  {
    var i := Significant(A);
    var j := Significant(B);
    Grow(X, i + j);
    Lset(X, 0);
    MulRows(X, A, B, i, j);
    X.s := A.s * B.s;
    SignProduct(A.s, B.s, A.Abs(), B.Abs());
  }

  lemma SignProduct(sa: int, sb: int, a: nat, b: nat)
    requires (sa == 1 || sa == -1) && (sb == 1 || sb == -1)
    ensures a * b >= 0 && (sa * sb == 1 || sa * sb == -1)
    ensures Signed(sa * sb, a * b) == Signed(sa, a) * Signed(sb, b)
  {
    MulNonNeg(a, b);
    MulSub(0, a, b);
    MulSub(0, b, a);
    MulSub(0, b, 0 - a);
  }

  /** mpi_mul_int: the multiplier is used as an unsigned limb. */
  method MulInt(X: Mpi, A: Mpi, b: int)
    requires A.Num() && -0x8000_0000 <= b < 0x1_0000_0000
    modifies X
    ensures X.Num() && X.Int() == old(A.Int()) * (b % 0x1_0000_0000) && X.s == old(A.s)
    ensures |X.p| >= old(|X.p|)
  {
    var B := new Mpi();
    B.p := [b % 0x1_0000_0000];
    ValOne(B.p);
    MulMpi(X, A, B);
  }
}
