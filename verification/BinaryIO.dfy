/** Big-endian byte strings and their conversion to and from multi-precision integers. */
module BinaryIO {
  import opened Limbs
  import opened Bits
  import opened Mul
  import opened BigNum
  import opened Shifts
  import opened Division

  type Byte = x: int | 0 <= x < 256

  /** The number a byte string denotes, most significant byte first. */
  ghost function BE(s: seq<Byte>): nat {
    if s == [] then 0 else s[0] * P2(8 * (|s| - 1)) + BE(s[1..])
  }

  /** The first byte weighs most: each further byte multiplies by 256 and adds. */
  lemma {:induction false} BytesWeigh(s: seq<Byte>, b: Byte)
    ensures BE([]) == 0 && BE(s + [b]) == 256 * BE(s) + b
  {
    if s == [] {
      assert [] + [b] == [b] && [b][1..] == [];
      assert P2(0) == 1;
    } else {
      BytesWeigh(s[1..], b);
      assert (s + [b])[1..] == s[1..] + [b];
      var k := |s| - 1;
      P2Add(8, 8 * k);
      assert P2(8) == 256 by {
        P2Add(4, 4);
        assert P2(4) == 16;
      }
      assert 8 * |s| == 8 + 8 * k;
      MulAssoc(s[0] as int, 256, P2(8 * k));
      MulSwap(s[0] as int, 256, P2(8 * k));
    }
  }

  lemma P2Of8(k: nat)
    ensures P2(8 * (k + 1)) == 256 * P2(8 * k)
  {
    assert P2(4) == 16;
    P2Add(4, 4);
    P2Add(8, 8 * k);
  }

  lemma {:induction false} BEBound(s: seq<Byte>)
    ensures BE(s) < P2(8 * |s|)
  {
    if s != [] {
      BEBound(s[1..]);
      P2Of8(|s| - 1);
      MulLe(s[0] as int, 255, P2(8 * (|s| - 1)));
    }
  }

  lemma {:induction false} BEZeros(s: seq<Byte>, k: nat)
    requires k <= |s| && forall i :: 0 <= i < k ==> s[i] == 0
    ensures BE(s) == BE(s[k..])
    decreases k
  {
    if k == 0 {
      assert s[0..] == s;
    } else {
      BEZeros(s[1..], k - 1);
      assert s[1..][k - 1..] == s[k..];
    }
  }

  /** Equal length and equal value mean equal bytes. */
  lemma {:induction false} BEInjective(s: seq<Byte>, t: seq<Byte>)
    requires |s| == |t| && BE(s) == BE(t)
    ensures s == t
  {
    if s != [] {
      var w := P2(8 * (|s| - 1));
      BEBound(s[1..]);
      BEBound(t[1..]);
      DivUnique(BE(s), w, s[0] as int, BE(s[1..]));
      DivUnique(BE(t), w, t[0] as int, BE(t[1..]));
      BEInjective(s[1..], t[1..]);
      assert s == [s[0]] + s[1..];
      assert t == [t[0]] + t[1..];
    }
  }

  /** The weight of byte j is byte j mod 4 of limb j / 4. */
  lemma ByteWeight(j: nat)
    ensures P2(8 * j) == P2(8 * (j % 4)) * Pw(j / 4)
    ensures P2(8 * (j % 4)) * 256 <= 0x1_0000_0000
  {
    PwIsP2(j / 4);
    P2Add(8 * (j % 4), 32 * (j / 4));
    assert 8 * j == 8 * (j % 4) + 32 * (j / 4);
    P2Of32();
    P2Of8(j % 4);
    P2Monotone(8 * (j % 4 + 1), 32);
  }

  /** One byte is put into a limb whose bits from there on are still zero. */
  lemma PutByte(p: seq<Limb>, j: nat, b: Byte)
    requires j / 4 < |p| && Val(p) < P2(8 * j)
    ensures p[j / 4] < P2(8 * (j % 4))
    ensures 0 <= p[j / 4] as int + b * P2(8 * (j % 4)) < 0x1_0000_0000
    ensures Val(p[j / 4 := p[j / 4] as int + b * P2(8 * (j % 4))]) == Val(p) + b * P2(8 * j)
  {
    var k, w := j / 4, P2(8 * (j % 4));
    ByteWeight(j);
    if p[k] != 0 {
      ValTop(p, k);
      if p[k] >= w {
        MulLe(w, p[k], Pw(k));
      }
    }
    MulLe(b as int, 255, w);
    MulNonNeg(b as int, w);
    ValUpdate(p, k, p[k] as int + b * w);
    MulAssoc(b as int, w, Pw(k));
  }

  /** The store of byte number j, counted from the low end. */
  method StoreByte(X: Mpi, j: nat, b: Byte)
    requires j / 4 < |X.p| && X.Abs() < P2(8 * j)
    modifies X`p
    ensures |X.p| == old(|X.p|) && X.Abs() == old(X.Abs()) + b * P2(8 * j)
  {
    PutByte(X.p, j, b);
    X.p := X.p[j / 4 := X.p[j / 4] as int + b * P2(8 * (j % 4))];
  }

  /** The fetch of byte number j. */
  method LoadByte(X: Mpi, j: nat) returns (b: Byte)
    requires j / 4 < |X.p|
    ensures b * P2(8 * j) + Mod(X.Abs(), P2(8 * j)) == Mod(X.Abs(), P2(8 * (j + 1)))
  {
    GetByte(X.p, j);
    NextByte(X.Abs(), j);
    b := (X.p[j / 4] / P2(8 * (j % 4))) % 256;
  }

  /** mpi_read_binary. */
  method ReadBinary(X: Mpi, buf: seq<Byte>)
    modifies X
    ensures X.Num() && X.s == 1 && X.Int() == BE(buf)
  {
    var n := 0;
    while n < |buf| && buf[n] == 0
      invariant 0 <= n <= |buf| && forall i :: 0 <= i < n ==> buf[i] == 0
    {
      n := n + 1;
    }
    BEZeros(buf, n);
    Grow(X, (|buf| - n + 3) / 4);
    Lset(X, 0);
    var i, j := |buf|, 0;
    while i > n
      invariant n <= i <= |buf| && j == |buf| - i
      invariant X.Num() && X.s == 1 && |X.p| * 4 >= |buf| - n
      invariant X.Abs() == BE(buf[i..])
    {
      BEBound(buf[i..]);
      assert buf[i - 1..] == [buf[i - 1]] + buf[i..];
      StoreByte(X, j, buf[i - 1]);
      i := i - 1;
      j := j + 1;
    }
  }

  /** One byte more of a number. */
  lemma NextByte(v: nat, j: nat)
    ensures Mod(v, P2(8 * (j + 1))) == (Quo(v, P2(8 * j)) % 256) * P2(8 * j) + Mod(v, P2(8 * j))
  {
    P2Of8(j);
    SplitOff(v, P2(8 * j));
  }

  lemma SplitOff(v: nat, d: nat)
    requires d > 0
    ensures Mod(v, 256 * d) == (Quo(v, d) % 256) * d + Mod(v, d)
  {
    var q, r := v / d, v % d;
    var b := q % 256;
    DivDef(v, d);
    DivDef(q, 256);
    MulAdd((q / 256) * 256, b, d);
    MulAssoc(q / 256, 256, d);
    MulLe(b, 255, d);
    MulNonNeg(b, d);
    DivUnique(v, 256 * d, q / 256, b * d + r);
  }

  /** Byte j of a number is byte j mod 4 of limb j / 4. */
  lemma GetByte(p: seq<Limb>, j: nat)
    requires j / 4 < |p|
    ensures Quo(Val(p), P2(8 * j)) % 256 == (p[j / 4] / P2(8 * (j % 4))) % 256
  {
    var k, m := j / 4, j % 4;
    assert 8 * j == 32 * k + 8 * m;
    ShiftRInTwo(p, k, 8 * m);
    LimbByte(p[k], Val(p[k..][1..]), m);
  }

  lemma LimbByte(x: Limb, hi: nat, m: nat)
    requires m < 4
    ensures ((x + 0x1_0000_0000 * hi) / P2(8 * m)) % 256 == (x / P2(8 * m)) % 256
  {
    var w := P2(8 * m);
    var h := P2(24 - 8 * m) * hi;
    LimbBytes(m, hi);
    DivDef(x, w);
    MulAdd(x / w, 256 * h, w);
    DivUnique(x + 0x1_0000_0000 * hi, w, x / w + 256 * h, x % w);
    LowByte(x / w, h);
  }

  lemma LowByte(q: int, h: int)
    ensures (q + 256 * h) % 256 == q % 256
  {
  }

  /** The limbs above are whole multiples of the byte above. */
  lemma LimbBytes(m: nat, hi: nat)
    requires m < 4
    ensures 0x1_0000_0000 * hi == (256 * (P2(24 - 8 * m) * hi)) * P2(8 * m)
  {
    P2Of32();
    P2Of8(m);
    P2Add(24 - 8 * m, 8 * (m + 1));
    MulAssoc(P2(24 - 8 * m), 256 * P2(8 * m), hi);
    MulSwap(P2(24 - 8 * m), 256 * P2(8 * m), hi);
  }

  /** Byte `j` from the end goes to its place in front of the ones that are there. */
  method PutNext(X: Mpi, before: seq<Byte>, j: nat) returns (buf: seq<Byte>)
    requires X.Num() && j < |before| && j < 4 * |X.p|
    requires forall i :: 0 <= i < |before| - j ==> before[i] == 0
    requires BE(before[|before| - j..]) == Mod(Val(X.p), P2(8 * j))
    ensures |buf| == |before| && forall i :: 0 <= i < |buf| - j - 1 ==> buf[i] == 0
    ensures BE(buf[|buf| - j - 1..]) == Mod(Val(X.p), P2(8 * (j + 1)))
  {
    var b := LoadByte(X, j);
    buf := before[|before| - 1 - j := b];
    assert buf[|buf| - j - 1..] == [b] + before[|before| - j..];
  }

  /** The low `n` bytes at the end of a buffer of zeros. */
  method PutBytes(X: Mpi, buflen: nat, n: nat) returns (buf: seq<Byte>)
    requires X.Num() && n <= buflen && n <= 4 * |X.p|
    ensures |buf| == buflen && forall i :: 0 <= i < buflen - n ==> buf[i] == 0
    ensures BE(buf[buflen - n..]) == Mod(Val(X.p), P2(8 * n))
  {
    buf := seq(buflen, _ => 0);
    var j := 0;
    NoBytes(Val(X.p), buf);
    while j < n
      invariant 0 <= j <= n && |buf| == buflen
      invariant forall i :: 0 <= i < buflen - j ==> buf[i] == 0
      invariant BE(buf[buflen - j..]) == Mod(Val(X.p), P2(8 * j))
    {
      buf := PutNext(X, buf, j);
      j := j + 1;
    }
  }

  lemma NoBytes(v: nat, buf: seq<Byte>)
    ensures BE(buf[|buf|..]) == Mod(v, P2(8 * 0))
  {
    assert P2(0) == 1 && buf[|buf|..] == [];
    DivUnique(v, 1, v, 0);
  }

  /** mpi_write_binary: the result has exactly buflen bytes. */
  method WriteBinary(X: Mpi, buflen: nat) returns (ret: Ret, buf: seq<Byte>)
    requires X.Num()
    ensures ret == (if buflen < (BitLen(X.Abs()) + 7) / 8 then BufferTooSmall else Success)
    ensures ret == Success ==> |buf| == buflen && BE(buf) == X.Abs()
  {
    var n := Msb(X);
    n := (n + 7) / 8;
    if buflen < n {
      return BufferTooSmall, [];
    }
    BytesFit(X.p, n);
    buf := PutBytes(X, buflen, n);
    BEZeros(buf, buflen - n);
    DivUnique(Val(X.p), P2(8 * n), 0, Val(X.p));
    ret := Success;
  }

  lemma BytesFit(p: seq<Limb>, n: nat)
    requires n == (BitLen(Val(p)) + 7) / 8
    ensures n <= 4 * |p| && Val(p) < P2(8 * n)
  {
    BitLenBounds(Val(p));
    P2Monotone(BitLen(Val(p)), 8 * n);
    LengthFits(p);
  }
}
