/**
 * MD5 as an incremental computation, and HMAC-MD5 on top of it. The compression step is the
 * program's own; everything around it is proved against the one-shot definitions of RFC 1321
 * and RFC 2104.
 */
module Md5Rounds {
  datatype State = State(a: bv32, b: bv32, c: bv32, d: bv32)

  const INITIAL := State(0x67452301, 0xEFCDAB89, 0x98BADCFE, 0x10325476)

  /** A 32-bit word from four bytes, least significant first. */
  function Word(s: seq<bv8>, i: nat): bv32
    requires i + 4 <= |s|
  {
    (s[i] as bv32) | (s[i + 1] as bv32 << 8) | (s[i + 2] as bv32 << 16) | (s[i + 3] as bv32 << 24)
  }

  /** The circular shift to the left. */
  function Rotate(x: bv32, n: bv8): bv32
    requires 0 < n < 32
  {
    (x << n) | (x >> (32 - n))
  }

  /** The four mixing functions, as the program writes them. */
  function F(x: bv32, y: bv32, z: bv32): bv32 { z ^ (x & (y ^ z)) }
  function G(x: bv32, y: bv32, z: bv32): bv32 { y ^ (z & (x ^ y)) }
  function H(x: bv32, y: bv32, z: bv32): bv32 { x ^ y ^ z }
  function I(x: bv32, y: bv32, z: bv32): bv32 { y ^ (x | !z) }

  /** They are the functions of RFC 1321, section 3.4. */
  lemma MixingFunctions(x: bv32, y: bv32, z: bv32)
    ensures F(x, y, z) == (x & y) | (!x & z)
    ensures G(x, y, z) == (x & z) | (y & !z)
    ensures H(x, y, z) == x ^ y ^ z
    ensures I(x, y, z) == y ^ (x | !z)
  {
  }

  function Low8(x: bv32): bv8 {
    (x & 0xFF) as bv8
  }

  function PutWord(x: bv32): (s: seq<bv8>)
    ensures |s| == 4
  {
    [Low8(x), Low8(x >> 8), Low8(x >> 16), Low8(x >> 24)]
  }

  /** The additive constants in the order of use, round by round. */
  const T1: seq<bv32> := [
    0xD76AA478, 0xE8C7B756, 0x242070DB, 0xC1BDCEEE, 0xF57C0FAF, 0x4787C62A, 0xA8304613, 0xFD469501,
    0x698098D8, 0x8B44F7AF, 0xFFFF5BB1, 0x895CD7BE, 0x6B901122, 0xFD987193, 0xA679438E, 0x49B40821
  ]
  const T2: seq<bv32> := [
    0xF61E2562, 0xC040B340, 0x265E5A51, 0xE9B6C7AA, 0xD62F105D, 0x02441453, 0xD8A1E681, 0xE7D3FBC8,
    0x21E1CDE6, 0xC33707D6, 0xF4D50D87, 0x455A14ED, 0xA9E3E905, 0xFCEFA3F8, 0x676F02D9, 0x8D2A4C8A
  ]
  const T3: seq<bv32> := [
    0xFFFA3942, 0x8771F681, 0x6D9D6122, 0xFDE5380C, 0xA4BEEA44, 0x4BDECFA9, 0xF6BB4B60, 0xBEBFBC70,
    0x289B7EC6, 0xEAA127FA, 0xD4EF3085, 0x04881D05, 0xD9D4D039, 0xE6DB99E5, 0x1FA27CF8, 0xC4AC5665
  ]
  const T4: seq<bv32> := [
    0xF4292244, 0x432AFF97, 0xAB9423A7, 0xFC93A039, 0x655B59C3, 0x8F0CCC92, 0xFFEFF47D, 0x85845DD1,
    0x6FA87E4F, 0xFE2CE6E0, 0xA3014314, 0x4E0811A1, 0xF7537E82, 0xBD3AF235, 0x2AD7D2BB, 0xEB86D391
  ]

  function Constant(i: nat): bv32
    requires i < 64
  {
    if i < 16 then T1[i] else if i < 32 then T2[i - 16] else if i < 48 then T3[i - 32] else T4[i - 48]
  }

  /** Which message word an operation takes. */
  function Pick(i: nat): (k: nat)
    ensures k < 16
  {
    if i < 16 then i
    else if i < 32 then (5 * i + 1) % 16
    else if i < 48 then (3 * i + 5) % 16
    else 7 * i % 16
  }

  function Shift(i: nat): (n: bv8)
    ensures 0 < n < 32
  {
    var r, c := i / 16, i % 4;
    if r == 0 then (if c == 0 then 7 else if c == 1 then 12 else if c == 2 then 17 else 22)
    else if r == 1 then (if c == 0 then 5 else if c == 1 then 9 else if c == 2 then 14 else 20)
    else if r == 2 then (if c == 0 then 4 else if c == 1 then 11 else if c == 2 then 16 else 23)
    else (if c == 0 then 6 else if c == 1 then 10 else if c == 2 then 15 else 21)
  }

  /** The function of each round in RFC 1321, section 3.4. */
  function Auxiliary(i: nat, x: bv32, y: bv32, z: bv32): bv32 {
    if i < 16 then (x & y) | (!x & z)
    else if i < 32 then (x & z) | (y & !z)
    else if i < 48 then x ^ y ^ z
    else y ^ (x | !z)
  }

  /** One operation of RFC 1321; the registers move on by one place. */
  function Operation(s: State, block: seq<bv8>, i: nat): State
    requires |block| == 64 && i < 64
  {
    State(s.d, Mixed(s.a, Auxiliary(i, s.b, s.c, s.d), Word(block, 4 * Pick(i)), Constant(i), Shift(i), s.b), s.b, s.c)
  }

  /** The arithmetic of an operation: b + ((a + mix + word + constant) <<< n). */
  function Mixed(a: bv32, mix: bv32, word: bv32, t: bv32, n: bv8, b: bv32): bv32
    requires 0 < n < 32
  {
    b + Rotate(a + mix + word + t, n)
  }

  function Operations(s: State, block: seq<bv8>, n: nat): State
    requires |block| == 64 && n <= 64
  {
    if n == 0 then s else Operation(Operations(s, block, n - 1), block, n - 1)
  }

  /** The compression of one 64-byte block into the state. */
  function Process(s: State, block: seq<bv8>): State {
    if |block| != 64 then s
    else
      Added(s, Operations(s, block, 4 * |T1|))
  }

  function Added(s: State, r: State): State {
    State(s.a + r.a, s.b + r.b, s.c + r.c, s.d + r.d)
  }

  // ---------------------------------------------------------------- the program

  /** The message words in the order the program writes them out, round by round. */
  const K2: seq<nat> := [1, 6, 11, 0, 5, 10, 15, 4, 9, 14, 3, 8, 13, 2, 7, 12]
  const K3: seq<nat> := [5, 8, 11, 14, 1, 4, 7, 10, 13, 0, 3, 6, 9, 12, 15, 2]
  const K4: seq<nat> := [0, 7, 14, 5, 12, 3, 10, 1, 8, 15, 6, 13, 4, 11, 2, 9]

  function Written(i: nat): nat
    requires i < 64
  {
    if i < 16 then i else if i < 32 then K2[i - 16] else if i < 48 then K3[i - 32] else K4[i - 48]
  }

  lemma Second(i: nat)
    requires i < 16
    ensures K2[i] == (5 * (i + 16) + 1) % 16
  {
  }

  lemma Third(i: nat)
    requires i < 16
    ensures K3[i] == (3 * (i + 32) + 5) % 16
  {
  }

  lemma Fourth(i: nat)
    requires i < 16
    ensures K4[i] == 7 * (i + 48) % 16
  {
  }

  /** The order follows a rule in each round. */
  lemma Picked(i: nat)
    requires i < 64
    ensures Written(i) == Pick(i)
  {
    if 16 <= i < 32 {
      Second(i - 16);
    } else if 32 <= i < 48 {
      Third(i - 32);
    } else if 48 <= i {
      Fourth(i - 48);
    }
  }

  function Mix(i: nat, x: bv32, y: bv32, z: bv32): bv32 {
    if i < 16 then F(x, y, z) else if i < 32 then G(x, y, z) else if i < 48 then H(x, y, z) else I(x, y, z)
  }

  lemma MixIsAuxiliary(i: nat, x: bv32, y: bv32, z: bv32)
    ensures Mix(i, x, y, z) == Auxiliary(i, x, y, z)
  {
    MixingFunctions(x, y, z);
  }

  /** The macro P: the first register takes the result. */
  method P(a: bv32, b: bv32, c: bv32, d: bv32, X: seq<bv32>, i: nat, ghost block: seq<bv8>) returns (r: bv32)
    requires |block| == 64 && i < 64 && X == Words(block)
    ensures Operation(State(a, b, c, d), block, i) == State(d, r, b, c)
  {
    Picked(i);
    WordsAt(block, Pick(i));
    MixIsAuxiliary(i, b, c, d);
    r := Mixed(a, Mix(i, b, c, d), X[Written(i)], Constant(i), Shift(i), b);
  }

  /** The sixteen words of a block. */
  function Words(block: seq<bv8>): (X: seq<bv32>)
    requires |block| == 64
    ensures |X| == 16
  {
    seq(16, k requires 0 <= k < 16 => Word(block, 4 * k))
  }

  lemma WordsAt(block: seq<bv8>, k: nat)
    requires |block| == 64 && k < 16
    ensures Words(block)[k] == Word(block, 4 * k)
  {
  }

  /** Four operations, each with the registers in another part, bring them back to their parts. */
  method FourTimes(A0: bv32, B0: bv32, C0: bv32, D0: bv32, X: seq<bv32>, i: nat, ghost s: State, ghost block: seq<bv8>)
    returns (A: bv32, B: bv32, C: bv32, D: bv32)
    requires |block| == 64 && i + 4 <= 64 && X == Words(block)
    requires Operations(s, block, i) == State(A0, B0, C0, D0)
    ensures Operations(s, block, i + 4) == State(A, B, C, D)
  {
    A := P(A0, B0, C0, D0, X, i, block);
    D := P(D0, A, B0, C0, X, i + 1, block);
    C := P(C0, D, A, B0, X, i + 2, block);
    B := P(B0, C, D, A, X, i + 3, block);
    FourOperations(s, block, i);
  }

  lemma FourOperations(s: State, block: seq<bv8>, i: nat)
    requires |block| == 64 && i + 4 <= 64
    ensures var s2 := Operation(Operation(Operations(s, block, i), block, i), block, i + 1);
            Operations(s, block, i + 4) == Operation(Operation(s2, block, i + 2), block, i + 3)
  {
    assert Operations(s, block, i + 1) == Operation(Operations(s, block, i), block, i);
    assert Operations(s, block, i + 2) == Operation(Operations(s, block, i + 1), block, i + 1);
    assert Operations(s, block, i + 3) == Operation(Operations(s, block, i + 2), block, i + 2);
  }

  /** Groups of four operations. */
  method Groups(s: State, data: seq<bv8>, X: seq<bv32>, n: nat) returns (A: bv32, B: bv32, C: bv32, D: bv32)
    requires |data| == 64 && X == Words(data) && 4 * n <= 64
    ensures Operations(s, data, 4 * n) == State(A, B, C, D)
  {
    A, B, C, D := s.a, s.b, s.c, s.d;
    var g := 0;
    while g < n
      invariant 0 <= g <= n
      invariant Operations(s, data, 4 * g) == State(A, B, C, D)
    {
      A, B, C, D := FourTimes(A, B, C, D, X, 4 * g, s, data);
      g := g + 1;
    }
  }

  /** md5_process: the four registers keep their names and change parts; it is the compression of RFC 1321. */
  method ProcessBlock(state: State, data: seq<bv8>) returns (r: State)
    requires |data| == 64
    ensures r == Process(state, data)
  {
    var X := Words(data);
    var A, B, C, D := Groups(state, data, X, 16);
    r := Added(state, State(A, B, C, D));
  }
}

module Md5 {
  import opened Octets
  import opened Md5Rounds

  const MOD64 := 0x1_0000_0000_0000_0000

  // ---------------------------------------------------------------- the one-shot definitions

  /** What takes one 64-byte block into the state; the results hold whatever it computes. */
  type Compression = (State, seq<bv8>) -> State

  /** The state after the first `k` blocks of `data`. */
  ghost function Fold(f: Compression, data: seq<bv8>, k: nat): State
    requires 64 * k <= |data|
  {
    if k == 0 then INITIAL else f(Fold(f, data, k - 1), data[64 * (k - 1)..64 * k])
  }

  /** How many padding bytes bring a length to 56 modulo 64: at least one. */
  function PadLen(last: nat): (n: nat)
    requires last < 64
    ensures 0 < n <= 64
  {
    if last < 56 then 56 - last else 120 - last
  }

  /** The length in bits modulo 2^64, as eight bytes. */
  ghost function LengthBytes(n: nat): (s: seq<bv8>)
    ensures |s| == 8
  {
    var bits := 8 * n % MOD64;
    LittleEndian(bits % WORD) + LittleEndian(bits / WORD)
  }

  ghost function Padding(n: nat): (s: seq<bv8>)
    ensures |s| == PadLen(n % 64)
  {
    [0x80] + Zeros(PadLen(n % 64) - 1)
  }

  /** Sections 3.1 and 3.2 of RFC 1321: a one bit, zeros, and the length. */
  ghost function Padded(msg: seq<bv8>): (s: seq<bv8>) {
    msg + Padding(|msg|) + LengthBytes(|msg|)
  }

  lemma PaddedWhole(n: nat)
    ensures (n + PadLen(n % 64)) % 64 == 56 && (n + PadLen(n % 64) + 8) % 64 == 0
  {
  }

  function StateBytes(s: State): (r: seq<bv8>)
    ensures |r| == 16
  {
    PutWord(s.a) + PutWord(s.b) + PutWord(s.c) + PutWord(s.d)
  }

  /** Section 3 of RFC 1321 in one go. */
  ghost function Hash(f: Compression, msg: seq<bv8>): (r: seq<bv8>)
    ensures |r| == 16
  {
    StateBytes(Fold(f, Padded(msg), |Padded(msg)| / 64))
  }

  // ---------------------------------------------------------------- the counters

  /** The two words of the byte count. */
  ghost predicate Counts(t0: nat, t1: nat, n: nat) {
    t0 == n % WORD && t1 == n / WORD % WORD
  }

  lemma CountOn(t0: nat, t1: nat, n: nat, m: nat)
    requires Counts(t0, t1, n) && m < WORD
    ensures var u := (t0 + m) % WORD;
            Counts(u, if u < m then (t1 + 1) % WORD else t1, n + m)
  {
    var q := n / WORD;
    assert n == q * WORD + t0;
    if t0 + m < WORD {
      Quotient(q, t0 + m);
    } else {
      Quotient(q + 1, t0 + m - WORD);
      NextWord(q);
    }
  }

  lemma Quotient(q: int, r: int)
    requires 0 <= r < WORD
    ensures (q * WORD + r) / WORD == q && (q * WORD + r) % WORD == r
  {
  }

  lemma NextWord(q: nat)
    ensures (q + 1) % WORD == (q % WORD + 1) % WORD
  {
    var k, r := q / WORD, q % WORD;
    assert q == k * WORD + r;
    if r + 1 < WORD {
      Quotient(k, r + 1);
    } else {
      Quotient(k + 1, 0);
    }
  }

  /** The position in the buffer is the low six bits of the low word. */
  lemma LowBits(n: nat)
    ensures n % WORD % 64 == n % 64
  {
    var q, r := n / WORD, n % WORD;
    assert n == q * WORD + r;
    var a, b := r / 64, r % 64;
    assert n == (q * 0x400_0000 + a) * 64 + b;
    assert n % 64 == b;
  }

  // ---------------------------------------------------------------- the incremental program

  lemma {:induction false} FoldPrefix(f: Compression, data: seq<bv8>, more: seq<bv8>, k: nat)
    requires 64 * k <= |data|
    ensures Fold(f, data + more, k) == Fold(f, data, k)
  {
    if k > 0 {
      FoldPrefix(f, data, more, k - 1);
      SliceBefore(data, more, 64 * (k - 1), 64 * k);
    }
  }

  /** Two sequences with the same rest also have the same next block and the same rest after it. */
  lemma NextBlock(s: seq<bv8>, i: nat, t: seq<bv8>, j: nat)
    requires i + 64 <= |s| && j <= |t| && s[i..] == t[j..]
    ensures j + 64 <= |t| && s[i..i + 64] == t[j..j + 64] && s[i + 64..] == t[j + 64..]
  {
    assert |s| - i == |s[i..]| == |t[j..]| == |t| - j;
    assert s[i..i + 64] == s[i..][..64] && t[j..j + 64] == t[j..][..64];
    assert s[i + 64..] == s[i..][64..] && t[j + 64..] == t[j..][64..];
  }

  class Context {
    var t0: nat
    var t1: nat
    var state: State
    const process: Compression
    const buffer: array<bv8>
    const ipad: array<bv8>
    const opad: array<bv8>
    ghost var msg: seq<bv8>

    constructor (process: Compression)
      ensures this.process == process && Built() && fresh(buffer) && fresh(ipad) && fresh(opad)
    {
      this.process := process;
      buffer := new bv8[64](i => 0);
      ipad := new bv8[64](i => 0);
      opad := new bv8[64](i => 0);
    }

    ghost predicate Built()
      reads this
    {
      && buffer.Length == 64 && ipad.Length == 64 && opad.Length == 64
      && buffer != ipad && buffer != opad && ipad != opad
    }

    /** The context stands for the bytes taken in so far. */
    ghost predicate Valid()
      reads this, buffer
    {
      && Built()
      && Counts(t0, t1, |msg|)
      && Absorbed(msg, |msg| / 64, |msg| % 64)
    }

    /** `k` blocks of `full` are in the state and the next `left` bytes in the buffer. */
    ghost predicate Absorbed(full: seq<bv8>, k: nat, left: nat)
      requires buffer.Length == 64
      reads this, buffer
    {
      && left < 64 && 64 * k + left <= |full|
      && state == Fold(process, full, k)
      && buffer[..left] == full[64 * k..64 * k + left]
    }

    method Starts()
      requires Built()
      modifies `t0, `t1, `state, `msg
      ensures Valid() && msg == []
    {
      t0, t1 := 0, 0;
      state := INITIAL;
      msg := [];
    }

    /** Bytes into the buffer behind what is there. */
    method Keep(left: nat, part: seq<bv8>)
      requires Built() && left + |part| <= 64
      modifies buffer
      ensures buffer[..left + |part|] == old(buffer[..left]) + part
    {
      forall k | 0 <= k < |part| {
        buffer[left + k] := part[k];
      }
    }

    /** Complete the block in the buffer and compress it. */
    method CompleteBlock(left: nat, part: seq<bv8>, ghost full: seq<bv8>, ghost k: nat)
      requires Built() && Absorbed(full, k, left) && left + |part| == 64
      requires 64 * (k + 1) <= |full| && part == full[64 * k + left..64 * (k + 1)]
      modifies `state, buffer
      ensures Built() && Absorbed(full, k + 1, 0)
    {
      Keep(left, part);
      assert buffer[..] == buffer[..left + |part|] == full[64 * k..64 * (k + 1)];
      state := process(state, buffer[..]);
    }

    /** Compress a whole block of the input. */
    method WholeBlock(block: seq<bv8>, ghost full: seq<bv8>, ghost k: nat)
      requires Built() && Absorbed(full, k, 0)
      requires 64 * (k + 1) <= |full| && block == full[64 * k..64 * (k + 1)]
      modifies `state
      ensures Built() && Absorbed(full, k + 1, 0)
    {
      state := process(state, block);
    }

    /** All the whole blocks of the input from `start` on; with a part in the buffer there are none. */
    method WholeBlocks(input: seq<bv8>, start: nat, ghost full: seq<bv8>, ghost from: nat, left: nat)
      returns (pos: nat, ghost k: nat)
      requires Built() && Absorbed(full, from, left)
      requires start <= |input| && input[start..] == full[64 * from + left..]
      requires left == 0 || |input| - start < 64
      modifies `state
      ensures Built() && start <= pos <= |input| < pos + 64
      ensures Absorbed(full, k, left) && input[pos..] == full[64 * k + left..]
      ensures left > 0 ==> pos == start
    {
      pos, k := start, from;
      while |input| - pos >= 64
        invariant start <= pos <= |input|
        invariant Absorbed(full, k, left) && input[pos..] == full[64 * k + left..]
        invariant left > 0 ==> pos == start
      {
        NextBlock(input, pos, full, 64 * k);
        WholeBlock(input[pos..pos + 64], full, k);
        pos, k := pos + 64, k + 1;
      }
    }

    method Count(n: nat)
      requires n < WORD && Counts(t0, t1, |msg|)
      modifies `t0, `t1
      ensures Counts(t0, t1, |msg| + n)
    {
      CountOn(t0, t1, |msg|, n);
      t0 := (t0 + n) % WORD;
      if t0 < n {
        t1 := (t1 + 1) % WORD;
      }
    }

    /** Put the end of the input, less than a block, behind what the buffer holds. */
    method KeepRest(input: seq<bv8>, pos: nat, ghost full: seq<bv8>, ghost k: nat, left: nat)
      requires Built() && Absorbed(full, k, left)
      requires pos <= |input| && left + (|input| - pos) < 64 && input[pos..] == full[64 * k + left..]
      modifies buffer
      ensures Built() && Absorbed(full, |full| / 64, |full| % 64)
    {
      assert |full| == 64 * k + left + (|input| - pos);
      if |input| - pos > 0 {
        Keep(left, input[pos..]);
      }
      assert full[64 * k..64 * k + left] + full[64 * k + left..] == full[64 * k..];
    }

    /** First, a block begun before is completed if the input is long enough. */
    method FirstBlock(input: seq<bv8>, ghost k: nat, left: nat) returns (pos: nat, rest: nat, ghost j: nat)
      requires Built() && Absorbed(msg, k, left) && |msg| == 64 * k + left
      modifies `state, buffer
      ensures Built() && Absorbed(msg + input, j, rest) && pos <= |input|
      ensures input[pos..] == (msg + input)[64 * j + rest..]
      ensures rest > 0 ==> pos == 0 && |input| < 64 - rest
    {
      ghost var full := msg + input;
      FoldPrefix(process, msg, input, k);
      Spread(msg, input, k, left);
      var fill := 64 - left;
      pos, rest, j := 0, left, k;
      if left > 0 && |input| >= fill {
        CompleteBlock(left, input[..fill], full, k);
        pos, rest, j := fill, 0, k + 1;
      }
    }

    /** Take in the next part of the message, of any length. */
    method Update(input: seq<bv8>)
      requires Valid() && |input| < WORD
      modifies `t0, `t1, `state, `msg, buffer
      ensures Valid() && msg == old(msg) + input
    {
      if |input| == 0 {
        assert msg + input == msg;
        return;
      }
      Absorb(input);
    }

    /** The same for a part that is not empty. */
    method Absorb(input: seq<bv8>)
      requires Valid() && |input| < WORD
      modifies `t0, `t1, `state, `msg, buffer
      ensures Valid() && msg == old(msg) + input
    {
      ghost var full := msg + input;
      LowBits(|msg|);
      var left := t0 % 64;
      Count(|input|);
      var pos;
      ghost var k;
      pos, left, k := FirstBlock(input, |msg| / 64, left);
      TakeRest(input, pos, left, full, k);
      msg := full;
    }

    /** All behind the first block: whole blocks, and what is left of the input. */
    method TakeRest(input: seq<bv8>, start: nat, left: nat, ghost full: seq<bv8>, ghost from: nat)
      requires Built() && Absorbed(full, from, left) && start <= |input|
      requires input[start..] == full[64 * from + left..] && (left > 0 ==> start == 0 && |input| < 64 - left)
      modifies `state, buffer
      ensures Built() && Absorbed(full, |full| / 64, |full| % 64)
    {
      var pos;
      ghost var k;
      pos, k := WholeBlocks(input, start, full, from, left);
      KeepRest(input, pos, full, k, left);
    }

    /** The bit count of the message as eight bytes, from the two words of the byte count. */
    method MessageLength() returns (bytes: seq<bv8>)
      requires Counts(t0, t1, |msg|)
      ensures bytes == LengthBytes(|msg|)
    {
      var high := t0 / 0x2000_0000 + t1 * 8 % WORD;
      var low := t0 * 8 % WORD;
      LengthWords(t0, t1, |msg|);
      bytes := LittleEndian(low) + LittleEndian(high);
    }

    /** Pad, add the length, and give the state out. */
    method Finish() returns (output: seq<bv8>)
      requires Valid()
      modifies `t0, `t1, `state, `msg, buffer
      ensures Valid() && output == Hash(process, old(msg))
    {
      ghost var m := msg;
      var msglen := MessageLength();
      LowBits(|m|);
      var last := t0 % 64;
      var padn := if last < 56 then 56 - last else 120 - last;
      assert PADDING()[..padn] == Padding(|m|);
      Update(PADDING()[..padn]);
      Update(msglen);
      PaddedWhole(|m|);
      output := StateBytes(state);
    }

    /** Both pads made from the key, XORed in place over the constants. */
    method MakePads(key: seq<bv8>)
      requires Built() && |key| <= 64
      modifies ipad, opad
      ensures ipad[..] == PadWith(0x36, key) && opad[..] == PadWith(0x5C, key)
    {
      forall k | 0 <= k < 64 {
        ipad[k] := 0x36;
      }
      forall k | 0 <= k < 64 {
        opad[k] := 0x5C;
      }
      var i := 0;
      while i < |key|
        invariant 0 <= i <= |key|
        invariant forall k :: 0 <= k < 64 ==> ipad[k] == if k < i then 0x36 ^ key[k] else 0x36
        invariant forall k :: 0 <= k < 64 ==> opad[k] == if k < i then 0x5C ^ key[k] else 0x5C
      {
        ipad[i] := ipad[i] ^ key[i];
        opad[i] := opad[i] ^ key[i];
        i := i + 1;
      }
    }

    /** The two pads belong to the key. */
    ghost predicate PadsOf(key: seq<bv8>)
      reads this, ipad, opad
    {
      && Built()
      && ipad[..] == PadWith(0x36, ShortKey(process, key))
      && opad[..] == PadWith(0x5C, ShortKey(process, key))
    }

    /** The inner hash has taken in the inner pad and `text`. */
    ghost predicate Keyed(key: seq<bv8>, text: seq<bv8>)
      reads this, buffer, ipad, opad
    {
      Valid() && PadsOf(key) && msg == PadWith(0x36, ShortKey(process, key)) + text
    }

    method HmacStarts(key: seq<bv8>)
      requires Built() && |key| < WORD
      modifies `t0, `t1, `state, `msg, buffer, ipad, opad
      ensures Keyed(key, [])
    {
      var short := key;
      if |key| > 64 {
        short := Digest(process, key);
      }
      MakePads(short);
      HmacReset(key);
    }

    method HmacReset(ghost key: seq<bv8>)
      requires PadsOf(key)
      modifies `t0, `t1, `state, `msg, buffer
      ensures Keyed(key, [])
    {
      Starts();
      Update(ipad[..]);
      NoText(ipad[..]);
    }

    method HmacUpdate(input: seq<bv8>, ghost key: seq<bv8>, ghost text: seq<bv8>)
      requires Keyed(key, text) && |input| < WORD
      modifies `t0, `t1, `state, `msg, buffer
      ensures Keyed(key, text + input)
    {
      MoreText(PadWith(0x36, ShortKey(process, key)), text, input);
      Update(input);
    }

    method HmacFinish(ghost key: seq<bv8>, ghost text: seq<bv8>) returns (output: seq<bv8>)
      requires Keyed(key, text)
      modifies `t0, `t1, `state, `msg, buffer
      ensures Valid() && output == Hmac(process, key, text)
    {
      var inner := Finish();
      output := OuterHash(opad[..], inner);
    }

    method OuterHash(pad: seq<bv8>, inner: seq<bv8>) returns (output: seq<bv8>)
      requires Built() && |pad| < WORD && |inner| < WORD
      modifies `t0, `t1, `state, `msg, buffer
      ensures Valid() && output == Hash(process, pad + inner)
    {
      Starts();
      Update(pad);
      NoText(pad);
      Update(inner);
      output := Finish();
    }
  }

  lemma NoText(s: seq<bv8>)
    ensures [] + s == s && s + [] == s
  {
  }

  lemma MoreText(pad: seq<bv8>, text: seq<bv8>, input: seq<bv8>)
    ensures pad + text + input == pad + (text + input)
  {
  }

  /** A key of at most 64 bytes, filled up with zeros and XORed with one byte all over. */
  ghost function PadWith(b: bv8, key: seq<bv8>): (s: seq<bv8>)
    requires |key| <= 64
    ensures |s| == 64
  {
    seq(64, k requires 0 <= k < 64 => if k < |key| then b ^ key[k] else b ^ 0)
  }

  /** Keys longer than a block are hashed first. */
  ghost function ShortKey(f: Compression, key: seq<bv8>): (s: seq<bv8>)
    ensures |s| <= 64
  {
    if |key| > 64 then Hash(f, key) else key
  }

  /** Section 2 of RFC 2104. */
  ghost function Hmac(f: Compression, key: seq<bv8>, text: seq<bv8>): seq<bv8> {
    var k := ShortKey(f, key);
    Hash(f, PadWith(0x5C, k) + Hash(f, PadWith(0x36, k) + text))
  }

  /** A key filled up with zeros to 64 bytes, XORed with one byte all over. */
  ghost function KeyXor(b: bv8, key: seq<bv8>): (s: seq<bv8>)
    requires |key| <= 64
  {
    var filled := key + Zeros(64 - |key|);
    seq(64, k requires 0 <= k < 64 => filled[k] ^ b)
  }

  lemma PadIsKeyXor(b: bv8, key: seq<bv8>)
    requires |key| <= 64
    ensures PadWith(b, key) == KeyXor(b, key)
  {
    var filled := key + Zeros(64 - |key|);
    forall k | 0 <= k < 64
      ensures PadWith(b, key)[k] == filled[k] ^ b
    {
      Swapped(b, filled[k]);
    }
  }

  lemma Swapped(b: bv8, c: bv8)
    ensures b ^ c == c ^ b
  {
  }

  /** RFC 2104 in its own terms: H(K XOR opad, H(K XOR ipad, text)), with ipad 36 and opad 5C, long keys hashed. */
  lemma HmacAsStandard(f: Compression, key: seq<bv8>, text: seq<bv8>)
    ensures |key| <= 64 ==> Hmac(f, key, text) == Hash(f, KeyXor(0x5C, key) + Hash(f, KeyXor(0x36, key) + text))
    ensures |key| > 64 ==> var k := Hash(f, key);
                           Hmac(f, key, text) == Hash(f, KeyXor(0x5C, k) + Hash(f, KeyXor(0x36, k) + text))
  {
    var k := ShortKey(f, key);
    PadIsKeyXor(0x36, k);
    PadIsKeyXor(0x5C, k);
  }

  /** The hash of a whole buffer. */
  method Digest(process: Compression, input: seq<bv8>) returns (output: seq<bv8>)
    requires |input| < WORD
    ensures output == Hash(process, input)
  {
    var ctx := new Context(process);
    ctx.Starts();
    ctx.Update(input);
    assert [] + input == input;
    output := ctx.Finish();
  }

  /** A message handed over in parts, however it is cut, hashes like the whole. */
  method DigestParts(process: Compression, parts: seq<seq<bv8>>) returns (output: seq<bv8>)
    requires forall k :: 0 <= k < |parts| ==> |parts[k]| < WORD
    ensures output == Hash(process, Joined(parts))
  {
    var ctx := new Context(process);
    ctx.Starts();
    var i := 0;
    while i < |parts|
      invariant 0 <= i <= |parts|
      invariant ctx.Valid() && ctx.msg == Joined(parts[..i]) && fresh(ctx) && fresh(ctx.buffer)
      invariant ctx.process == process
    {
      assert parts[..i + 1][..i] == parts[..i];
      ctx.Update(parts[i]);
      i := i + 1;
    }
    assert parts[..i] == parts;
    output := ctx.Finish();
  }

  ghost function Joined(parts: seq<seq<bv8>>): seq<bv8> {
    if parts == [] then [] else Joined(parts[..|parts| - 1]) + parts[|parts| - 1]
  }

  /** The authentication code of a whole buffer. */
  method HmacDigest(process: Compression, key: seq<bv8>, input: seq<bv8>) returns (output: seq<bv8>)
    requires |key| < WORD && |input| < WORD
    ensures output == Hmac(process, key, input)
  {
    var ctx := new Context(process);
    ctx.HmacStarts(key);
    ctx.HmacUpdate(input, key, []);
    assert [] + input == input;
    output := ctx.HmacFinish(key, input);
  }

  /** The constant padding block: a one bit and zeros. */
  function PADDING(): (s: seq<bv8>)
    ensures |s| == 64
  {
    [0x80] + Zeros(63)
  }

  /** Shifting the two words of the byte count left by three gives the bit count modulo 2^64. */
  lemma LengthWords(t0: nat, t1: nat, n: nat)
    requires Counts(t0, t1, n)
    ensures var bits := 8 * n % MOD64;
            bits % WORD == t0 * 8 % WORD && bits / WORD == t0 / 0x2000_0000 + t1 * 8 % WORD
  {
    var q, top := n / WORD, t0 / 0x2000_0000;
    var low := t0 - top * 0x2000_0000;
    assert t0 * 8 == top * WORD + low * 8;
    Quotient(top, low * 8);
    var k, up := q / WORD, t1 / 0x2000_0000;
    var rest := t1 - up * 0x2000_0000;
    assert t1 * 8 == up * WORD + rest * 8;
    Quotient(up, rest * 8);
    LongQuotient(8 * n, 8 * k + up, rest * 8 + top, low * 8);
  }

  lemma LongQuotient(x: nat, q: nat, hi: nat, lo: nat)
    requires x == q * MOD64 + hi * WORD + lo && hi < WORD && lo < WORD
    ensures x % MOD64 % WORD == lo && x % MOD64 / WORD == hi
  {
    var r := hi * WORD + lo;
    assert 0 <= r < MOD64 && x == q * MOD64 + r;
    assert x % MOD64 == r;
    Quotient(hi, lo);
  }

  /** How the stored part of a message and the next input lie in the whole. */
  lemma Spread(msg: seq<bv8>, input: seq<bv8>, k: nat, left: nat)
    requires |msg| == 64 * k + left && left < 64
    ensures var full := msg + input;
            && full[64 * k..64 * k + left] == msg[64 * k..]
            && input[0..] == full[64 * k + left..]
            && (|input| >= 64 - left ==>
                  && input[..64 - left] == full[64 * k + left..64 * (k + 1)]
                  && input[64 - left..] == full[64 * (k + 1)..])
  {
  }

  // ---------------------------------------------------------------- MD5 itself

  /** MD5 of a whole buffer, by the compression of RFC 1321. */
  method Md5(input: seq<bv8>) returns (output: seq<bv8>)
    requires |input| < WORD
    ensures output == Hash(Process, input)
  {
    output := Digest(Process, input);
  }

  /** HMAC-MD5 of a whole buffer. */
  method HmacMd5(key: seq<bv8>, input: seq<bv8>) returns (output: seq<bv8>)
    requires |key| < WORD && |input| < WORD
    ensures output == Hmac(Process, key, input)
  {
    output := HmacDigest(Process, key, input);
  }
}
