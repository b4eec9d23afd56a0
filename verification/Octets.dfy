/** Bytes as the protocol handles them: 8-bit values under XOR, and 32-bit words sent high byte first. */
module Octets {
  const WORD := 0x1_0000_0000

  function Zeros(n: nat): (s: seq<bv8>)
    ensures |s| == n
  {
    seq(n, i => 0)
  }

  lemma SliceBefore(s: seq<bv8>, t: seq<bv8>, lo: nat, hi: nat)
    requires lo <= hi <= |s|
    ensures (s + t)[lo..hi] == s[lo..hi]
  {
  }

  /** The XOR of a run of bytes. */
  function Xor(s: seq<bv8>): bv8 {
    if s == [] then 0 else Xor(s[..|s| - 1]) ^ s[|s| - 1]
  }

  lemma {:induction false} XorConcat(s: seq<bv8>, t: seq<bv8>)
    ensures Xor(s + t) == Xor(s) ^ Xor(t)
  {
    if t == [] {
      assert s + t == s;
    } else {
      assert (s + t)[..|s + t| - 1] == s + t[..|t| - 1];
      XorConcat(s, t[..|t| - 1]);
    }
  }

  lemma XorOne(b: bv8)
    ensures Xor([b]) == b
  {
    assert [b][..0] == [];
  }

  /** A block followed by its own check byte XORs to zero, and by no other byte. */
  lemma CheckByte(s: seq<bv8>, c: bv8)
    ensures Xor(s + [c]) == 0 <==> c == Xor(s)
  {
    XorConcat(s, [c]);
    XorOne(c);
  }

  /** The number a byte stands for, counted down to zero. */
  function Value(b: bv8): (v: int)
    ensures 0 <= v < 256
    decreases b, 0
  {
    if b == 0 then 0
    else
      Previous(b);
      ValueIs(b - 1);
      Value(b - 1) + 1
  }

  lemma {:induction false} ValueIs(b: bv8)
    ensures Value(b) == b as int
    decreases b, 1
  {
    if b != 0 {
      Previous(b);
      ValueIs(b - 1);
    }
  }

  lemma Previous(b: bv8)
    requires b > 0
    ensures (b - 1) as int == b as int - 1
  {
  }

  lemma Next(b: bv8)
    requires Value(b) < 255
    ensures Value(b + 1) == Value(b) + 1
  {
    ValueIs(b);
    Successor(b);
    ValueIs(b + 1);
  }

  lemma Successor(b: bv8)
    requires b as int < 255
    ensures (b + 1) as int == b as int + 1
  {
  }

  /** The byte with a given value, counted up from zero. */
  function ByteOf(n: nat): (b: bv8)
    requires n < 256
    ensures Value(b) == n
  {
    if n == 0 then 0
    else
      var p := ByteOf(n - 1);
      Next(p);
      p + 1
  }

  function Low(n: int): (b: bv8)
    ensures Value(b) == n % 256
  {
    ByteOf(n % 256)
  }

  /** A 32-bit word as four bytes, most significant first. */
  function BigEndian(v: int): (s: seq<bv8>)
    ensures |s| == 4
  {
    [Low(v / 0x100_0000), Low(v / 0x1_0000), Low(v / 0x100), Low(v)]
  }

  /** A 32-bit word as it lies in memory, least significant byte first. */
  function LittleEndian(v: int): (s: seq<bv8>)
    ensures |s| == 4
  {
    [Low(v), Low(v / 0x100), Low(v / 0x1_0000), Low(v / 0x100_0000)]
  }

  /** One byte shifted into a 32-bit register. */
  function ShiftIn(v: nat, b: bv8): (r: nat)
    ensures r < WORD
  {
    (v * 256 + Value(b)) % WORD
  }

  /** Bytes shifted into a register in the order they arrive. */
  function ShiftAll(v: nat, s: seq<bv8>): (r: nat)
    ensures s == [] ==> r == v
  {
    if s == [] then v else ShiftIn(ShiftAll(v, s[..|s| - 1]), s[|s| - 1])
  }

  lemma ShiftOne(v: nat, s: seq<bv8>, b: bv8)
    ensures ShiftAll(v, s + [b]) == ShiftIn(ShiftAll(v, s), b)
  {
    assert (s + [b])[..|s|] == s;
  }

  lemma Shift4(v: nat, s: seq<bv8>)
    requires |s| == 4
    ensures ShiftAll(v, s) == ShiftIn(ShiftIn(ShiftIn(ShiftIn(v, s[0]), s[1]), s[2]), s[3])
  {
    var a, b, c, d := s[0], s[1], s[2], s[3];
    assert [] + [a] == [a] && [a] + [b] == [a, b] && [a, b] + [c] == [a, b, c] && [a, b, c] + [d] == s;
    ShiftOne(v, [], a);
    ShiftOne(v, [a], b);
    ShiftOne(v, [a, b], c);
    ShiftOne(v, [a, b, c], d);
  }

  lemma Rem(q: int, r: int, m: int)
    requires m == 0x100 || m == 0x1_0000 || m == 0x100_0000 || m == WORD
    requires 0 <= r < m
    ensures m == 0x100 ==> (q * 0x100 + r) % 0x100 == r
    ensures m == 0x1_0000 ==> (q * 0x1_0000 + r) % 0x1_0000 == r
    ensures m == 0x100_0000 ==> (q * 0x100_0000 + r) % 0x100_0000 == r
    ensures m == WORD ==> (q * WORD + r) % WORD == r
  {
  }

  /** Wrapping at 32 bits leaves the low bytes alone. */
  lemma Wrap8(u: int, t: int, r: int)
    requires u == t * 0x100 + r && 0 <= r < 0x100
    ensures u % WORD % 0x100 == r
  {
    var q := u / WORD;
    assert u % WORD == (t - q * 0x100_0000) * 0x100 + r;
    Rem(t - q * 0x100_0000, r, 0x100);
  }

  lemma Wrap16(u: int, t: int, r: int)
    requires u == t * 0x1_0000 + r && 0 <= r < 0x1_0000
    ensures u % WORD % 0x1_0000 == r
  {
    var q := u / WORD;
    assert u % WORD == (t - q * 0x1_0000) * 0x1_0000 + r;
    Rem(t - q * 0x1_0000, r, 0x1_0000);
  }

  lemma Wrap24(u: int, t: int, r: int)
    requires u == t * 0x100_0000 + r && 0 <= r < 0x100_0000
    ensures u % WORD % 0x100_0000 == r
  {
    var q := u / WORD;
    assert u % WORD == (t - q * 0x100) * 0x100_0000 + r;
    Rem(t - q * 0x100, r, 0x100_0000);
  }

  lemma Shifted1(v: int, b: int)
    requires 0 <= b < 256
    ensures (v * 256 + b) % WORD % 0x100 == b
  {
    Wrap8(v * 256 + b, v, b);
  }

  lemma Shifted2(v: int, b: int, x: int)
    requires v % 0x100 == x && 0 <= b < 256
    ensures (v * 256 + b) % WORD % 0x1_0000 == x * 256 + b
  {
    Wrap16(v * 256 + b, v / 0x100, x * 256 + b);
  }

  lemma Shifted3(v: int, b: int, x: int)
    requires v % 0x1_0000 == x && 0 <= b < 256
    ensures (v * 256 + b) % WORD % 0x100_0000 == x * 256 + b
  {
    Wrap24(v * 256 + b, v / 0x1_0000, x * 256 + b);
  }

  lemma Shifted4(v: int, b: int, x: int)
    requires v % 0x100_0000 == x && 0 <= b < 256
    ensures (v * 256 + b) % WORD == x * 256 + b
  {
    assert v * 256 + b == v / 0x100_0000 * WORD + (x * 256 + b);
  }

  lemma ShiftedWord(v: int, v1: int, v2: int, v3: int, v4: int, a: int, b: int, c: int, d: int)
    requires 0 <= a < 256 && 0 <= b < 256 && 0 <= c < 256 && 0 <= d < 256
    requires v1 == (v * 256 + a) % WORD && v2 == (v1 * 256 + b) % WORD
    requires v3 == (v2 * 256 + c) % WORD && v4 == (v3 * 256 + d) % WORD
    ensures v4 == a * 0x100_0000 + b * 0x1_0000 + c * 0x100 + d
  {
    Shifted1(v, a);
    Shifted2(v1, b, a);
    Shifted3(v2, c, a * 256 + b);
    Shifted4(v3, d, (a * 256 + b) * 256 + c);
  }

  function WordOf(s: seq<bv8>): (v: nat)
    requires |s| == 4
    ensures v < WORD
  {
    Value(s[0]) * 0x100_0000 + Value(s[1]) * 0x1_0000 + Value(s[2]) * 0x100 + Value(s[3])
  }

  /** The first of four bytes is the most significant, and memory holds them the other way round. */
  lemma WordIs(s: seq<bv8>, v: int)
    requires |s| == 4
    ensures WordOf(s) == ((Value(s[0]) * 256 + Value(s[1])) * 256 + Value(s[2])) * 256 + Value(s[3])
    ensures forall k :: 0 <= k < 4 ==> LittleEndian(v)[k] == BigEndian(v)[3 - k]
  {
  }

  /** Four bytes shifted into a register leave nothing of what it held before. */
  lemma StaleBitsLeave(v: nat, s: seq<bv8>)
    requires |s| == 4
    ensures ShiftAll(v, s) == WordOf(s)
  {
    Shift4(v, s);
    var v1 := ShiftIn(v, s[0]);
    var v2 := ShiftIn(v1, s[1]);
    var v3 := ShiftIn(v2, s[2]);
    ShiftedWord(v, v1, v2, v3, ShiftIn(v3, s[3]), Value(s[0]), Value(s[1]), Value(s[2]), Value(s[3]));
  }

  lemma Digits(v: int)
    requires 0 <= v < WORD
    ensures v / 0x100_0000 % 256 * 0x100_0000 + v / 0x1_0000 % 256 * 0x1_0000 + v / 0x100 % 256 * 0x100 + v % 256 == v
  {
  }

  /** The receiver reads back the word the sender split. */
  lemma WordRoundTrip(v: nat)
    requires v < WORD
    ensures WordOf(BigEndian(v)) == v
  {
    Digits(v);
  }

  lemma XorPush(s: seq<bv8>, b: bv8)
    ensures Xor(s + [b]) == Xor(s) ^ b
  {
    assert (s + [b])[..|s|] == s;
  }

  lemma Xor4(a: bv8, b: bv8, c: bv8, d: bv8)
    ensures Xor([a, b, c, d]) == a ^ b ^ c ^ d
  {
    XorOne(a);
    XorPush([a], b);
    XorPush([a, b], c);
    XorPush([a, b, c], d);
    assert [a] + [b] == [a, b] && [a, b] + [c] == [a, b, c] && [a, b, c] + [d] == [a, b, c, d];
  }

  /** The check byte of an address does not depend on the byte order it is computed in. */
  lemma XorOrder(v: int)
    ensures Xor(LittleEndian(v)) == Xor(BigEndian(v))
  {
    var s := BigEndian(v);
    Xor4(s[0], s[1], s[2], s[3]);
    Xor4(s[3], s[2], s[1], s[0]);
  }

  lemma Same(a: bv8, b: bv8)
    requires Value(a) == Value(b)
    ensures a == b
  {
    ValueIs(a);
    ValueIs(b);
    Injective(a, b);
  }

  lemma Injective(a: bv8, b: bv8)
    requires a as int == b as int
    ensures a == b
  {
  }

  lemma Drop(x: int, d: int)
    requires 0 <= x && 0 <= d < 256
    ensures (x * 256 + d) / 256 == x && (x * 256 + d) % 256 == d
  {
  }

  lemma DropTwice(v: int)
    ensures v / 0x100 / 0x100 == v / 0x1_0000 && v / 0x1_0000 / 0x100 == v / 0x100_0000
  {
  }

  lemma WordDigits(a: int, b: int, c: int, d: int, v: int)
    requires 0 <= a < 256 && 0 <= b < 256 && 0 <= c < 256 && 0 <= d < 256
    requires v == a * 0x100_0000 + b * 0x1_0000 + c * 0x100 + d
    ensures v / 0x100_0000 % 256 == a && v / 0x1_0000 % 256 == b && v / 0x100 % 256 == c && v % 256 == d
  {
    Drop((a * 256 + b) * 256 + c, d);
    Drop(a * 256 + b, c);
    Drop(a, b);
    DropTwice(v);
  }

  /** Splitting the word four bytes spell gives the bytes back. */
  lemma WordBytes(s: seq<bv8>)
    requires |s| == 4
    ensures BigEndian(WordOf(s)) == s
  {
    var t := BigEndian(WordOf(s));
    WordDigits(Value(s[0]), Value(s[1]), Value(s[2]), Value(s[3]), WordOf(s));
    Same(t[0], s[0]);
    Same(t[1], s[1]);
    Same(t[2], s[2]);
    Same(t[3], s[3]);
  }

  /** The XOR loop over a byte buffer. */
  method XorCheckSum(data: seq<bv8>) returns (result: bv8)
    ensures result == Xor(data)
  {
    result := 0;
    var i := 0;
    while i < |data|
      invariant 0 <= i <= |data|
      invariant result == Xor(data[..i])
    {
      assert data[..i + 1][..i] == data[..i];
      result := result ^ data[i];
      i := i + 1;
    }
    assert data[..i] == data;
  }
}
