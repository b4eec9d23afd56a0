/**
 * Two answers of RFC 1321, appendix A.5, computed through all sixty-four operations: the state
 * after every eighth one is spelled out. The rotation is pinned by arithmetic beside them.
 */
module Md5Answers {
  import opened Mul
  import opened Bits
  import opened Octets
  import opened Md5Rounds
  import opened Md5

  // ---------------------------------------------------------------- the rotation as arithmetic

  /** The number that some bits spell, the lowest first. */
  ghost function Spelled(s: seq<bool>): (v: nat)
    ensures v < P2(|s|)
  {
    if s == [] then 0 else Spelled(s[..|s| - 1]) + if s[|s| - 1] then P2(|s| - 1) else 0
  }

  lemma {:induction false} SpelledConcat(s: seq<bool>, t: seq<bool>)
    ensures Spelled(s + t) == Spelled(s) + Spelled(t) * P2(|s|)
  {
    if t == [] {
      assert s + t == s;
    } else {
      var u := t[..|t| - 1];
      SpelledConcat(s, u);
      assert (s + t)[..|s + t| - 1] == s + u;
      P2Add(|u|, |s|);
      MulAdd(Spelled(u), if t[|t| - 1] then P2(|u|) else 0, P2(|s|));
    }
  }

  /** Bits turned round by `n` places: x 2^n modulo 2^32, and what left the word above, x / 2^(32-n). */
  lemma TurnedNumber(s: seq<bool>, n: nat)
    requires |s| == 32 && 0 < n < 32
    ensures Spelled(s[32 - n..] + s[..32 - n]) == Spelled(s) * P2(n) % 0x1_0000_0000 + Spelled(s) / P2(32 - n)
  {
    var low, high := s[..32 - n], s[32 - n..];
    SpelledConcat(high, low);
    SpelledConcat(low, high);
    assert low + high == s;
    TurnedParts(Spelled(low), Spelled(high), Spelled(s), n);
  }

  lemma TurnedParts(low: nat, high: nat, x: nat, n: nat)
    requires n < 32 && x == low + high * P2(32 - n) && low < P2(32 - n)
    ensures high + low * P2(n) == x * P2(n) % 0x1_0000_0000 + x / P2(32 - n)
  {
    P2Of32();
    P2Add(32 - n, n);
    MulAdd(low, high * P2(32 - n), P2(n));
    MulAssoc(high, P2(32 - n), P2(n));
    MulLe(low, P2(32 - n) - 1, P2(n));
    MulSub(P2(32 - n), 1, P2(n));
    MulNonNeg(low, P2(n));
    DivUnique(x * P2(n), 0x1_0000_0000, high, low * P2(n));
    DivUnique(x, P2(32 - n), high, low);
  }

  ghost predicate BitAt(x: bv32, j: bv8)
    requires j < 32
  {
    (x >> j) & 1 == 1
  }

  lemma Small(j: nat)
    requires j < 32
    ensures ByteOf(j) < 32
  {
    ValueIs(ByteOf(j));
  }

  ghost predicate BitNumber(x: bv32, j: nat)
    requires j < 32
  {
    Small(j);
    BitAt(x, ByteOf(j))
  }

  /** The bits of a word, the lowest first. */
  ghost function BitsOf(x: bv32): (s: seq<bool>)
    ensures |s| == 32
  {
    seq(32, j requires 0 <= j < 32 => BitNumber(x, j))
  }

  /** The number a word stands for. */
  ghost function Number(x: bv32): nat {
    Spelled(BitsOf(x))
  }

  lemma UpperBits(x: bv32, n: bv8, j: bv8)
    requires 0 < n < 32 && n <= j < 32
    ensures ((x << n) >> j) & 1 == (x >> (j - n)) & 1 && ((x >> (32 - n)) >> j) & 1 == 0
  {
  }

  lemma LowerBits(x: bv32, n: bv8, j: bv8)
    requires 0 < n < 32 && j < n
    ensures ((x << n) >> j) & 1 == 0 && ((x >> (32 - n)) >> j) & 1 == (x >> (32 - n + j)) & 1
  {
  }

  lemma OrBits(a: bv32, b: bv32, j: bv8)
    requires j < 32
    ensures ((a | b) >> j) & 1 == ((a >> j) & 1) | ((b >> j) & 1)
  {
  }

  lemma BitFromTop(x: bv32, n: bv8, j: bv8)
    requires 0 < n < 32 && j < n && 32 - (n - j) < 32
    ensures BitAt(Rotate(x, n), j) == BitAt(x, 32 - (n - j))
  {
    OrBits(x << n, x >> (32 - n), j);
    LowerBits(x, n, j);
    Regroup(n, j);
  }

  lemma BitFromBelow(x: bv32, n: bv8, j: bv8)
    requires 0 < n < 32 && n <= j < 32
    ensures BitAt(Rotate(x, n), j) == BitAt(x, j - n)
  {
    OrBits(x << n, x >> (32 - n), j);
    UpperBits(x, n, j);
  }

  lemma Regroup(n: bv8, b: bv8)
    ensures 32 - n + b == 32 - (n - b)
  {
  }

  lemma OneLess(b: bv8)
    requires b > 0
    ensures Value(b) == Value(b - 1) + 1
  {
    ValueIs(b);
    ValueIs(b - 1);
    Previous(b);
  }

  lemma BothLess(a: bv8, b: bv8)
    requires 0 < b <= a
    ensures 0 < a && b - 1 <= a - 1 && a - b == (a - 1) - (b - 1)
  {
  }

  lemma {:induction false} Difference(a: bv8, b: bv8)
    requires b <= a
    ensures Value(a - b) == Value(a) - Value(b)
    decreases b
  {
    if b == 0 {
      assert a - 0 == a;
    } else {
      BothLess(a, b);
      Difference(a - 1, b - 1);
      OneLess(a);
      OneLess(b);
    }
  }

  lemma Order(a: bv8, b: bv8)
    ensures a < b <==> Value(a) < Value(b)
  {
    ValueIs(a);
    ValueIs(b);
  }

  lemma Value32()
    ensures Value(32) == 32 && Value(0) == 0
  {
    ValueIs(32);
  }

  /** The position a bit comes from, as a byte and as a number. */
  lemma FromTop(n: bv8, b: bv8)
    requires 0 < n < 32 && b < n
    ensures n - b <= 32 && 32 - (n - b) < 32 && Value(32 - (n - b)) == 32 - (Value(n) - Value(b))
  {
    InTop(n, b);
    Difference(n, b);
    Value32();
    Difference(32, n - b);
  }

  lemma InTop(n: bv8, b: bv8)
    requires 0 < n < 32 && b < n
    ensures n - b <= 32 && 32 - (n - b) < 32
  {
  }

  lemma FromAbove(n: bv8, j: nat)
    requires 0 < n < 32 && j < Value(n) < 32
    ensures ByteOf(j) < n && 32 - (n - ByteOf(j)) < 32 && ByteOf(32 - (Value(n) - j)) == 32 - (n - ByteOf(j))
  {
    var b := ByteOf(j);
    Order(b, n);
    FromTop(n, b);
    Same(ByteOf(32 - (Value(n) - j)), 32 - (n - b));
  }

  lemma FromBelow(n: bv8, j: nat)
    requires 0 < n < 32 && Value(n) <= j < 32
    ensures n <= ByteOf(j) < 32 && ByteOf(j - Value(n)) == ByteOf(j) - n
  {
    var b := ByteOf(j);
    Order(b, n);
    Value32();
    Order(b, 32);
    Difference(b, n);
    Same(ByteOf(j - Value(n)), b - n);
  }

  lemma TurnedLow(x: bv32, n: bv8, j: nat)
    requires 0 < n < 32 && j < Value(n) < 32
    ensures BitNumber(Rotate(x, n), j) == BitNumber(x, 32 - (Value(n) - j))
  {
    var b := ByteOf(j);
    Small(j);
    FromAbove(n, j);
    BitFromTop(x, n, b);
  }

  lemma TurnedHigh(x: bv32, n: bv8, j: nat)
    requires 0 < n < 32 && Value(n) <= j < 32
    ensures BitNumber(Rotate(x, n), j) == BitNumber(x, j - Value(n))
  {
    var b := ByteOf(j);
    Small(j);
    FromBelow(n, j);
    BitFromBelow(x, n, b);
  }

  lemma Places(n: bv8)
    requires 0 < n < 32
    ensures 0 < Value(n) < 32
  {
    Value32();
    Order(0, n);
    Order(n, 32);
  }

  lemma TurnedBits(x: bv32, n: bv8, k: nat)
    requires 0 < n < 32 && k == Value(n) && 0 < k < 32
    ensures BitsOf(Rotate(x, n)) == BitsOf(x)[32 - k..] + BitsOf(x)[..32 - k]
  {
    var s, t := BitsOf(x), BitsOf(Rotate(x, n));
    forall j | 0 <= j < 32
      ensures t[j] == (s[32 - k..] + s[..32 - k])[j]
    {
      if j < k {
        TurnedLow(x, n, j);
      } else {
        TurnedHigh(x, n, j);
      }
    }
  }

  /** The rotation by `n` places: what stays of x 2^n, and what comes in at the bottom, x / 2^(32-n). */
  lemma RotateIs(x: bv32, n: bv8)
    requires 0 < n < 32
    ensures 0 < Value(n) < 32
    ensures Number(Rotate(x, n)) == Number(x) * P2(Value(n)) % 0x1_0000_0000 + Number(x) / P2(32 - Value(n))
  {
    Places(n);
    TurnedBits(x, n, Value(n));
    TurnedNumber(BitsOf(x), Value(n));
  }

  // ---------------------------------------------------------------- operations on literal states

  lemma OperationIs(a: bv32, b: bv32, c: bv32, d: bv32, block: seq<bv8>, i: nat, word: bv32, t: bv32, n: bv8, r: bv32)
    requires |block| == 64 && i < 64 && Words(block)[Pick(i)] == word && Constant(i) == t && Shift(i) == n
    requires 0 < n < 32 && Mixed(a, Auxiliary(i, b, c, d), word, t, n, b) == r
    ensures Operation(State(a, b, c, d), block, i) == State(d, r, b, c)
  {
  }

  // ---------------------------------------------------------------- the empty message

  ghost predicate EmptyBlock(block: seq<bv8>) {
    |block| == 64 && Words(block) ==
      [0x80, 0, 0, 0, 0, 0, 0, 0, 0, 0, 0, 0, 0, 0, 0, 0]
  }

  lemma Empty4(block: seq<bv8>)
    requires EmptyBlock(block)
    ensures Operations(INITIAL, block, 4) == State(0xA5202774, 0x1B163203, 0xE7F06B23, 0xF59592DD)
  {
    OperationIs(0x67452301, 0xEFCDAB89, 0x98BADCFE, 0x10325476, block, 0, 0x80, 0xD76AA478, 7, 0xA5202774);
    OperationIs(0x10325476, 0xA5202774, 0xEFCDAB89, 0x98BADCFE, block, 1, 0x0, 0xE8C7B756, 12, 0xF59592DD);
    OperationIs(0x98BADCFE, 0xF59592DD, 0xA5202774, 0xEFCDAB89, block, 2, 0x0, 0x242070DB, 17, 0xE7F06B23);
    OperationIs(0xEFCDAB89, 0xE7F06B23, 0xF59592DD, 0xA5202774, block, 3, 0x0, 0xC1BDCEEE, 22, 0x1B163203);
    FourOperations(INITIAL, block, 0);
  }

  lemma Empty8(block: seq<bv8>)
    requires EmptyBlock(block)
    ensures Operations(INITIAL, block, 8) == State(0x32033344, 0x9BC13CE9, 0xF5B158DB, 0x2F35D494)
  {
    Empty4(block);
    OperationIs(0xA5202774, 0x1B163203, 0xE7F06B23, 0xF59592DD, block, 4, 0x0, 0xF57C0FAF, 7, 0x32033344);
    OperationIs(0xF59592DD, 0x32033344, 0x1B163203, 0xE7F06B23, block, 5, 0x0, 0x4787C62A, 12, 0x2F35D494);
    OperationIs(0xE7F06B23, 0x2F35D494, 0x32033344, 0x1B163203, block, 6, 0x0, 0xA8304613, 17, 0xF5B158DB);
    OperationIs(0x1B163203, 0xF5B158DB, 0x2F35D494, 0x32033344, block, 7, 0x0, 0xFD469501, 22, 0x9BC13CE9);
    FourOperations(INITIAL, block, 4);
  }

  lemma Empty12(block: seq<bv8>)
    requires EmptyBlock(block)
    ensures Operations(INITIAL, block, 12) == State(0x3893B991, 0x70768A29, 0xE1EF0576, 0xFCE4A312)
  {
    Empty8(block);
    OperationIs(0x32033344, 0x9BC13CE9, 0xF5B158DB, 0x2F35D494, block, 8, 0x0, 0x698098D8, 7, 0x3893B991);
    OperationIs(0x2F35D494, 0x3893B991, 0x9BC13CE9, 0xF5B158DB, block, 9, 0x0, 0x8B44F7AF, 12, 0xFCE4A312);
    OperationIs(0xF5B158DB, 0xFCE4A312, 0x3893B991, 0x9BC13CE9, block, 10, 0x0, 0xFFFF5BB1, 17, 0xE1EF0576);
    OperationIs(0x9BC13CE9, 0xE1EF0576, 0xFCE4A312, 0x3893B991, block, 11, 0x0, 0x895CD7BE, 22, 0x70768A29);
    FourOperations(INITIAL, block, 8);
  }

  lemma Empty16(block: seq<bv8>)
    requires EmptyBlock(block)
    ensures Operations(INITIAL, block, 16) == State(0xF56C7CF1, 0xD6819C6A, 0x5AA53F75, 0x374943A7)
  {
    Empty12(block);
    OperationIs(0x3893B991, 0x70768A29, 0xE1EF0576, 0xFCE4A312, block, 12, 0x0, 0x6B901122, 7, 0xF56C7CF1);
    OperationIs(0xFCE4A312, 0xF56C7CF1, 0x70768A29, 0xE1EF0576, block, 13, 0x0, 0xFD987193, 12, 0x374943A7);
    OperationIs(0xE1EF0576, 0x374943A7, 0xF56C7CF1, 0x70768A29, block, 14, 0x0, 0xA679438E, 17, 0x5AA53F75);
    OperationIs(0x70768A29, 0x5AA53F75, 0x374943A7, 0xF56C7CF1, block, 15, 0x0, 0x49B40821, 22, 0xD6819C6A);
    FourOperations(INITIAL, block, 12);
  }

  lemma Empty20(block: seq<bv8>)
    requires EmptyBlock(block)
    ensures Operations(INITIAL, block, 20) == State(0x1C7D7513, 0xBD782E17, 0xC095F13A, 0x7BD57A3A)
  {
    Empty16(block);
    OperationIs(0xF56C7CF1, 0xD6819C6A, 0x5AA53F75, 0x374943A7, block, 16, 0x0, 0xF61E2562, 5, 0x1C7D7513);
    OperationIs(0x374943A7, 0x1C7D7513, 0xD6819C6A, 0x5AA53F75, block, 17, 0x0, 0xC040B340, 9, 0x7BD57A3A);
    OperationIs(0x5AA53F75, 0x7BD57A3A, 0x1C7D7513, 0xD6819C6A, block, 18, 0x0, 0x265E5A51, 14, 0xC095F13A);
    OperationIs(0xD6819C6A, 0xC095F13A, 0x7BD57A3A, 0x1C7D7513, block, 19, 0x80, 0xE9B6C7AA, 20, 0xBD782E17);
    FourOperations(INITIAL, block, 16);
  }

  lemma Empty24(block: seq<bv8>)
    requires EmptyBlock(block)
    ensures Operations(INITIAL, block, 24) == State(0x3D1E3E6C, 0xE422531A, 0xEB41643E, 0x68B7B3E3)
  {
    Empty20(block);
    OperationIs(0x1C7D7513, 0xBD782E17, 0xC095F13A, 0x7BD57A3A, block, 20, 0x0, 0xD62F105D, 5, 0x3D1E3E6C);
    OperationIs(0x7BD57A3A, 0x3D1E3E6C, 0xBD782E17, 0xC095F13A, block, 21, 0x0, 0x02441453, 9, 0x68B7B3E3);
    OperationIs(0xC095F13A, 0x68B7B3E3, 0x3D1E3E6C, 0xBD782E17, block, 22, 0x0, 0xD8A1E681, 14, 0xEB41643E);
    OperationIs(0xBD782E17, 0xEB41643E, 0x68B7B3E3, 0x3D1E3E6C, block, 23, 0x0, 0xE7D3FBC8, 20, 0xE422531A);
    FourOperations(INITIAL, block, 20);
  }

  lemma Empty28(block: seq<bv8>)
    requires EmptyBlock(block)
    ensures Operations(INITIAL, block, 28) == State(0x306EC122, 0xA0572807, 0xA3C663DA, 0xD28C77C2)
  {
    Empty24(block);
    OperationIs(0x3D1E3E6C, 0xE422531A, 0xEB41643E, 0x68B7B3E3, block, 24, 0x0, 0x21E1CDE6, 5, 0x306EC122);
    OperationIs(0x68B7B3E3, 0x306EC122, 0xE422531A, 0xEB41643E, block, 25, 0x0, 0xC33707D6, 9, 0xD28C77C2);
    OperationIs(0xEB41643E, 0xD28C77C2, 0x306EC122, 0xE422531A, block, 26, 0x0, 0xF4D50D87, 14, 0xA3C663DA);
    OperationIs(0xE422531A, 0xA3C663DA, 0xD28C77C2, 0x306EC122, block, 27, 0x0, 0x455A14ED, 20, 0xA0572807);
    FourOperations(INITIAL, block, 24);
  }

  lemma Empty32(block: seq<bv8>)
    requires EmptyBlock(block)
    ensures Operations(INITIAL, block, 32) == State(0x13707036, 0xA2205F1F, 0x1C31C384, 0xAE7813DB)
  {
    Empty28(block);
    OperationIs(0x306EC122, 0xA0572807, 0xA3C663DA, 0xD28C77C2, block, 28, 0x0, 0xA9E3E905, 5, 0x13707036);
    OperationIs(0xD28C77C2, 0x13707036, 0xA0572807, 0xA3C663DA, block, 29, 0x0, 0xFCEFA3F8, 9, 0xAE7813DB);
    OperationIs(0xA3C663DA, 0xAE7813DB, 0x13707036, 0xA0572807, block, 30, 0x0, 0x676F02D9, 14, 0x1C31C384);
    OperationIs(0xA0572807, 0x1C31C384, 0xAE7813DB, 0x13707036, block, 31, 0x0, 0x8D2A4C8A, 20, 0xA2205F1F);
    FourOperations(INITIAL, block, 28);
  }

  lemma Empty36(block: seq<bv8>)
    requires EmptyBlock(block)
    ensures Operations(INITIAL, block, 36) == State(0xDF63EAA1, 0x004B6669, 0x12F3E755, 0xC3689F5B)
  {
    Empty32(block);
    OperationIs(0x13707036, 0xA2205F1F, 0x1C31C384, 0xAE7813DB, block, 32, 0x0, 0xFFFA3942, 4, 0xDF63EAA1);
    OperationIs(0xAE7813DB, 0xDF63EAA1, 0xA2205F1F, 0x1C31C384, block, 33, 0x0, 0x8771F681, 11, 0xC3689F5B);
    OperationIs(0x1C31C384, 0xC3689F5B, 0xDF63EAA1, 0xA2205F1F, block, 34, 0x0, 0x6D9D6122, 16, 0x12F3E755);
    OperationIs(0xA2205F1F, 0x12F3E755, 0xC3689F5B, 0xDF63EAA1, block, 35, 0x0, 0xFDE5380C, 23, 0x004B6669);
    FourOperations(INITIAL, block, 32);
  }

  lemma Empty40(block: seq<bv8>)
    requires EmptyBlock(block)
    ensures Operations(INITIAL, block, 40) == State(0x5F7A9B2E, 0xC5DC8C15, 0x91CA4CB7, 0xABC34E16)
  {
    Empty36(block);
    OperationIs(0xDF63EAA1, 0x004B6669, 0x12F3E755, 0xC3689F5B, block, 36, 0x0, 0xA4BEEA44, 4, 0x5F7A9B2E);
    OperationIs(0xC3689F5B, 0x5F7A9B2E, 0x004B6669, 0x12F3E755, block, 37, 0x0, 0x4BDECFA9, 11, 0xABC34E16);
    OperationIs(0x12F3E755, 0xABC34E16, 0x5F7A9B2E, 0x004B6669, block, 38, 0x0, 0xF6BB4B60, 16, 0x91CA4CB7);
    OperationIs(0x004B6669, 0x91CA4CB7, 0xABC34E16, 0x5F7A9B2E, block, 39, 0x0, 0xBEBFBC70, 23, 0xC5DC8C15);
    FourOperations(INITIAL, block, 36);
  }

  lemma Empty44(block: seq<bv8>)
    requires EmptyBlock(block)
    ensures Operations(INITIAL, block, 44) == State(0x4497169D, 0x0FE32453, 0xFD95F243, 0x76FD93D4)
  {
    Empty40(block);
    OperationIs(0x5F7A9B2E, 0xC5DC8C15, 0x91CA4CB7, 0xABC34E16, block, 40, 0x0, 0x289B7EC6, 4, 0x4497169D);
    OperationIs(0xABC34E16, 0x4497169D, 0xC5DC8C15, 0x91CA4CB7, block, 41, 0x80, 0xEAA127FA, 11, 0x76FD93D4);
    OperationIs(0x91CA4CB7, 0x76FD93D4, 0x4497169D, 0xC5DC8C15, block, 42, 0x0, 0xD4EF3085, 16, 0xFD95F243);
    OperationIs(0xC5DC8C15, 0xFD95F243, 0x76FD93D4, 0x4497169D, block, 43, 0x0, 0x04881D05, 23, 0x0FE32453);
    FourOperations(INITIAL, block, 40);
  }

  lemma Empty48(block: seq<bv8>)
    requires EmptyBlock(block)
    ensures Operations(INITIAL, block, 48) == State(0x3F55EDFD, 0xCA7D2DBD, 0x68D84EA2, 0x22A31F54)
  {
    Empty44(block);
    OperationIs(0x4497169D, 0x0FE32453, 0xFD95F243, 0x76FD93D4, block, 44, 0x0, 0xD9D4D039, 4, 0x3F55EDFD);
    OperationIs(0x76FD93D4, 0x3F55EDFD, 0x0FE32453, 0xFD95F243, block, 45, 0x0, 0xE6DB99E5, 11, 0x22A31F54);
    OperationIs(0xFD95F243, 0x22A31F54, 0x3F55EDFD, 0x0FE32453, block, 46, 0x0, 0x1FA27CF8, 16, 0x68D84EA2);
    OperationIs(0x0FE32453, 0x68D84EA2, 0x22A31F54, 0x3F55EDFD, block, 47, 0x0, 0xC4AC5665, 23, 0xCA7D2DBD);
    FourOperations(INITIAL, block, 44);
  }

  lemma Empty52(block: seq<bv8>)
    requires EmptyBlock(block)
    ensures Operations(INITIAL, block, 52) == State(0x93AA2577, 0x561E0689, 0xCD85B8CB, 0x1688DC85)
  {
    Empty48(block);
    OperationIs(0x3F55EDFD, 0xCA7D2DBD, 0x68D84EA2, 0x22A31F54, block, 48, 0x80, 0xF4292244, 6, 0x93AA2577);
    OperationIs(0x22A31F54, 0x93AA2577, 0xCA7D2DBD, 0x68D84EA2, block, 49, 0x0, 0x432AFF97, 10, 0x1688DC85);
    OperationIs(0x68D84EA2, 0x1688DC85, 0x93AA2577, 0xCA7D2DBD, block, 50, 0x0, 0xAB9423A7, 15, 0xCD85B8CB);
    OperationIs(0xCA7D2DBD, 0xCD85B8CB, 0x1688DC85, 0x93AA2577, block, 51, 0x0, 0xFC93A039, 21, 0x561E0689);
    FourOperations(INITIAL, block, 48);
  }

  lemma Empty56(block: seq<bv8>)
    requires EmptyBlock(block)
    ensures Operations(INITIAL, block, 56) == State(0x5625A114, 0x1E77FA61, 0x392AD0D0, 0x3450F42B)
  {
    Empty52(block);
    OperationIs(0x93AA2577, 0x561E0689, 0xCD85B8CB, 0x1688DC85, block, 52, 0x0, 0x655B59C3, 6, 0x5625A114);
    OperationIs(0x1688DC85, 0x5625A114, 0x561E0689, 0xCD85B8CB, block, 53, 0x0, 0x8F0CCC92, 10, 0x3450F42B);
    OperationIs(0xCD85B8CB, 0x3450F42B, 0x5625A114, 0x561E0689, block, 54, 0x0, 0xFFEFF47D, 15, 0x392AD0D0);
    OperationIs(0x561E0689, 0x392AD0D0, 0x3450F42B, 0x5625A114, block, 55, 0x0, 0x85845DD1, 21, 0x1E77FA61);
    FourOperations(INITIAL, block, 52);
  }

  lemma Empty60(block: seq<bv8>)
    requires EmptyBlock(block)
    ensures Operations(INITIAL, block, 60) == State(0x474A9C8C, 0x30130182, 0x36594B14, 0xDFCE00BC)
  {
    Empty56(block);
    OperationIs(0x5625A114, 0x1E77FA61, 0x392AD0D0, 0x3450F42B, block, 56, 0x0, 0x6FA87E4F, 6, 0x474A9C8C);
    OperationIs(0x3450F42B, 0x474A9C8C, 0x1E77FA61, 0x392AD0D0, block, 57, 0x0, 0xFE2CE6E0, 10, 0xDFCE00BC);
    OperationIs(0x392AD0D0, 0xDFCE00BC, 0x474A9C8C, 0x1E77FA61, block, 58, 0x0, 0xA3014314, 15, 0x36594B14);
    OperationIs(0x1E77FA61, 0x36594B14, 0xDFCE00BC, 0x474A9C8C, block, 59, 0x0, 0x4E0811A1, 21, 0x30130182);
    FourOperations(INITIAL, block, 56);
  }

  lemma Empty64(block: seq<bv8>)
    requires EmptyBlock(block)
    ensures Operations(INITIAL, block, 64) == State(0x7246FAD3, 0x14E45506, 0xFF4EA3EB, 0x6E10A476)
  {
    Empty60(block);
    OperationIs(0x474A9C8C, 0x30130182, 0x36594B14, 0xDFCE00BC, block, 60, 0x0, 0xF7537E82, 6, 0x7246FAD3);
    OperationIs(0xDFCE00BC, 0x7246FAD3, 0x30130182, 0x36594B14, block, 61, 0x0, 0xBD3AF235, 10, 0x6E10A476);
    OperationIs(0x36594B14, 0x6E10A476, 0x7246FAD3, 0x30130182, block, 62, 0x0, 0x2AD7D2BB, 15, 0xFF4EA3EB);
    OperationIs(0x30130182, 0xFF4EA3EB, 0x6E10A476, 0x7246FAD3, block, 63, 0x0, 0xEB86D391, 21, 0x14E45506);
    FourOperations(INITIAL, block, 60);
  }

  lemma EmptyProcessed(block: seq<bv8>)
    requires EmptyBlock(block)
    ensures Process(INITIAL, block) == State(0xD98C1DD4, 0x04B2008F, 0x980980E9, 0x7E42F8EC)
  {
    Empty64(block);
  }

  lemma LowDigits(n: nat)
    requires n < 256
    ensures n / 0x100 == 0 && n / 0x1_0000 == 0 && n / 0x100_0000 == 0
  {
  }

  lemma LowByte(n: nat, b: bv8)
    requires n < 256 && Value(b) == n
    ensures LittleEndian(n) == [b, 0, 0, 0]
  {
    LowDigits(n);
    Same(Low(n), b);
    NoByte(n / 0x100);
    NoByte(n / 0x1_0000);
    NoByte(n / 0x100_0000);
  }

  lemma NoByte(n: nat)
    requires n == 0
    ensures Low(n) == 0
  {
    Same(Low(n), 0);
  }

  lemma SmallCount(n: nat)
    requires n < 256
    ensures n % MOD64 % WORD == n && n % MOD64 / WORD == 0
  {
  }

  lemma ShortLength(len: nat, n: nat)
    requires n == 8 * len < 256
    ensures LengthBytes(len) == LittleEndian(n) + LittleEndian(0)
  {
    SmallCount(n);
  }

  lemma ShortBytes(len: nat, n: nat, b: bv8)
    requires n == 8 * len < 256 && Value(b) == n
    ensures LengthBytes(len) == [b, 0, 0, 0, 0, 0, 0, 0]
  {
    ShortLength(len, n);
    LowByte(n, b);
    LowByte(0, 0);
  }

  lemma ShortPadding(len: nat)
    requires len < 32
    ensures Padding(len) == [0x80] + Zeros(55 - len)
  {
  }

  lemma Rearranged(msg: seq<bv8>, zeros: seq<bv8>, length: seq<bv8>)
    ensures msg + ([0x80] + zeros) + length == msg + [0x80] + zeros + length
  {
  }

  /** A message of less than 32 bytes fits one block with its padding. */
  lemma ShortPadded(msg: seq<bv8>, len: nat, n: nat, b: bv8)
    requires len == |msg| < 32 && n == 8 * len && Value(b) == n
    ensures Padded(msg) == msg + [0x80] + Zeros(55 - len) + [b, 0, 0, 0, 0, 0, 0, 0]
  {
    ShortBytes(len, n, b);
    ShortPadding(len);
    Rearranged(msg, Zeros(55 - len), LengthBytes(len));
  }

  lemma EmptyPadded(msg: seq<bv8>)
    requires msg == []
    ensures Padded(msg) == [0x80] + Zeros(63)
  {
    ShortPadded(msg, 0, 0, 0);
    assert msg + [0x80] + Zeros(55) + [0, 0, 0, 0, 0, 0, 0, 0] == [0x80] + Zeros(63);
  }

  lemma EmptyWords(block: seq<bv8>)
    requires block == [0x80] + Zeros(63)
    ensures EmptyBlock(block)
  {
    forall k | 0 <= k < 16
      ensures Words(block)[k] == if k == 0 then 0x80 else 0
    {
      WordsAt(block, k);
      ByteWord(block[4 * k]);
    }
  }

  /** A word whose upper three bytes are zero. */
  lemma ByteWord(b: bv8)
    ensures Word([b, 0, 0, 0], 0) == b as bv32
  {
  }

  lemma StateSpelled()
    ensures StateBytes(State(0xD98C1DD4, 0x04B2008F, 0x980980E9, 0x7E42F8EC)) ==
            [0xD4, 0x1D, 0x8C, 0xD9, 0x8F, 0x00, 0xB2, 0x04, 0xE9, 0x80, 0x09, 0x98, 0xEC, 0xF8, 0x42, 0x7E]
  {
  }

  /** MD5 of a message whose padded form is one block. */
  lemma OneBlock(msg: seq<bv8>)
    requires |Padded(msg)| == 64
    ensures Hash(Process, msg) == StateBytes(Process(INITIAL, Padded(msg)))
  {
    var data := Padded(msg);
    assert data[0..64] == data;
    assert Fold(Process, data, 0) == INITIAL;
    assert Fold(Process, data, 1) == Process(INITIAL, data);
  }

  /** MD5 of the empty message. */
  lemma EmptyAnswer(msg: seq<bv8>)
    requires msg == []
    ensures Hash(Process, msg) ==
            [0xD4, 0x1D, 0x8C, 0xD9, 0x8F, 0x00, 0xB2, 0x04, 0xE9, 0x80, 0x09, 0x98, 0xEC, 0xF8, 0x42, 0x7E]
  {
    EmptyPadded(msg);
    OneBlock(msg);
    EmptyWords(Padded(msg));
    EmptyProcessed(Padded(msg));
    StateSpelled();
  }

  // ---------------------------------------------------------------- the message "abc"

  ghost predicate AbcBlock(block: seq<bv8>) {
    |block| == 64 && Words(block) ==
      [0x80636261, 0, 0, 0, 0, 0, 0, 0, 0, 0, 0, 0, 0, 0, 0x18, 0]
  }

  lemma Abc4(block: seq<bv8>)
    requires AbcBlock(block)
    ensures Operations(INITIAL, block, 4) == State(0xD6D117B4, 0x7AD956F2, 0x2F6FBD72, 0x344A8432)
  {
    OperationIs(0x67452301, 0xEFCDAB89, 0x98BADCFE, 0x10325476, block, 0, 0x80636261, 0xD76AA478, 7, 0xD6D117B4);
    OperationIs(0x10325476, 0xD6D117B4, 0xEFCDAB89, 0x98BADCFE, block, 1, 0x0, 0xE8C7B756, 12, 0x344A8432);
    OperationIs(0x98BADCFE, 0x344A8432, 0xD6D117B4, 0xEFCDAB89, block, 2, 0x0, 0x242070DB, 17, 0x2F6FBD72);
    OperationIs(0xEFCDAB89, 0x2F6FBD72, 0x344A8432, 0xD6D117B4, block, 3, 0x0, 0xC1BDCEEE, 22, 0x7AD956F2);
    FourOperations(INITIAL, block, 0);
  }

  lemma Abc8(block: seq<bv8>)
    requires AbcBlock(block)
    ensures Operations(INITIAL, block, 8) == State(0xC73741EF, 0x928D99F6, 0x207DC67B, 0x8BAC3051)
  {
    Abc4(block);
    OperationIs(0xD6D117B4, 0x7AD956F2, 0x2F6FBD72, 0x344A8432, block, 4, 0x0, 0xF57C0FAF, 7, 0xC73741EF);
    OperationIs(0x344A8432, 0xC73741EF, 0x7AD956F2, 0x2F6FBD72, block, 5, 0x0, 0x4787C62A, 12, 0x8BAC3051);
    OperationIs(0x2F6FBD72, 0x8BAC3051, 0xC73741EF, 0x7AD956F2, block, 6, 0x0, 0xA8304613, 17, 0x207DC67B);
    OperationIs(0x7AD956F2, 0x207DC67B, 0x8BAC3051, 0xC73741EF, block, 7, 0x0, 0xFD469501, 22, 0x928D99F6);
    FourOperations(INITIAL, block, 4);
  }

  lemma Abc12(block: seq<bv8>)
    requires AbcBlock(block)
    ensures Operations(INITIAL, block, 12) == State(0x854B3712, 0x5ED49596, 0x3020401C, 0x74E2F284)
  {
    Abc8(block);
    OperationIs(0xC73741EF, 0x928D99F6, 0x207DC67B, 0x8BAC3051, block, 8, 0x0, 0x698098D8, 7, 0x854B3712);
    OperationIs(0x8BAC3051, 0x854B3712, 0x928D99F6, 0x207DC67B, block, 9, 0x0, 0x8B44F7AF, 12, 0x74E2F284);
    OperationIs(0x207DC67B, 0x74E2F284, 0x854B3712, 0x928D99F6, block, 10, 0x0, 0xFFFF5BB1, 17, 0x3020401C);
    OperationIs(0x928D99F6, 0x3020401C, 0x74E2F284, 0x854B3712, block, 11, 0x0, 0x895CD7BE, 22, 0x5ED49596);
    FourOperations(INITIAL, block, 8);
  }

  lemma Abc16(block: seq<bv8>)
    requires AbcBlock(block)
    ensures Operations(INITIAL, block, 16) == State(0xDDA9B9A6, 0x72AFF2E0, 0xE396856B, 0xA1051895)
  {
    Abc12(block);
    OperationIs(0x854B3712, 0x5ED49596, 0x3020401C, 0x74E2F284, block, 12, 0x0, 0x6B901122, 7, 0xDDA9B9A6);
    OperationIs(0x74E2F284, 0xDDA9B9A6, 0x5ED49596, 0x3020401C, block, 13, 0x0, 0xFD987193, 12, 0xA1051895);
    OperationIs(0x3020401C, 0xA1051895, 0xDDA9B9A6, 0x5ED49596, block, 14, 0x18, 0xA679438E, 17, 0xE396856B);
    OperationIs(0x5ED49596, 0xE396856B, 0xA1051895, 0xDDA9B9A6, block, 15, 0x0, 0x49B40821, 22, 0x72AFF2E0);
    FourOperations(INITIAL, block, 12);
  }

  lemma Abc20(block: seq<bv8>)
    requires AbcBlock(block)
    ensures Operations(INITIAL, block, 20) == State(0x3E9E9126, 0xB5B204E4, 0xE25E1652, 0x4A1D804E)
  {
    Abc16(block);
    OperationIs(0xDDA9B9A6, 0x72AFF2E0, 0xE396856B, 0xA1051895, block, 16, 0x0, 0xF61E2562, 5, 0x3E9E9126);
    OperationIs(0xA1051895, 0x3E9E9126, 0x72AFF2E0, 0xE396856B, block, 17, 0x0, 0xC040B340, 9, 0x4A1D804E);
    OperationIs(0xE396856B, 0x4A1D804E, 0x3E9E9126, 0x72AFF2E0, block, 18, 0x0, 0x265E5A51, 14, 0xE25E1652);
    OperationIs(0x72AFF2E0, 0xE25E1652, 0x4A1D804E, 0x3E9E9126, block, 19, 0x80636261, 0xE9B6C7AA, 20, 0xB5B204E4);
    FourOperations(INITIAL, block, 16);
  }

  lemma Abc24(block: seq<bv8>)
    requires AbcBlock(block)
    ensures Operations(INITIAL, block, 24) == State(0x59A8FFDA, 0x47092C07, 0xABFC7920, 0x6D002F1E)
  {
    Abc20(block);
    OperationIs(0x3E9E9126, 0xB5B204E4, 0xE25E1652, 0x4A1D804E, block, 20, 0x0, 0xD62F105D, 5, 0x59A8FFDA);
    OperationIs(0x4A1D804E, 0x59A8FFDA, 0xB5B204E4, 0xE25E1652, block, 21, 0x0, 0x02441453, 9, 0x6D002F1E);
    OperationIs(0xE25E1652, 0x6D002F1E, 0x59A8FFDA, 0xB5B204E4, block, 22, 0x0, 0xD8A1E681, 14, 0xABFC7920);
    OperationIs(0xB5B204E4, 0xABFC7920, 0x6D002F1E, 0x59A8FFDA, block, 23, 0x0, 0xE7D3FBC8, 20, 0x47092C07);
    FourOperations(INITIAL, block, 20);
  }

  lemma Abc28(block: seq<bv8>)
    requires AbcBlock(block)
    ensures Operations(INITIAL, block, 28) == State(0xB7F268CF, 0x786ACB8F, 0xFE1623B1, 0x09388EFF)
  {
    Abc24(block);
    OperationIs(0x59A8FFDA, 0x47092C07, 0xABFC7920, 0x6D002F1E, block, 24, 0x0, 0x21E1CDE6, 5, 0xB7F268CF);
    OperationIs(0x6D002F1E, 0xB7F268CF, 0x47092C07, 0xABFC7920, block, 25, 0x18, 0xC33707D6, 9, 0x09388EFF);
    OperationIs(0xABFC7920, 0x09388EFF, 0xB7F268CF, 0x47092C07, block, 26, 0x0, 0xF4D50D87, 14, 0xFE1623B1);
    OperationIs(0x47092C07, 0xFE1623B1, 0x09388EFF, 0xB7F268CF, block, 27, 0x0, 0x455A14ED, 20, 0x786ACB8F);
    FourOperations(INITIAL, block, 24);
  }

  lemma Abc32(block: seq<bv8>)
    requires AbcBlock(block)
    ensures Operations(INITIAL, block, 32) == State(0x790A77FB, 0x726342D3, 0xA62884AA, 0x9F47E4F8)
  {
    Abc28(block);
    OperationIs(0xB7F268CF, 0x786ACB8F, 0xFE1623B1, 0x09388EFF, block, 28, 0x0, 0xA9E3E905, 5, 0x790A77FB);
    OperationIs(0x09388EFF, 0x790A77FB, 0x786ACB8F, 0xFE1623B1, block, 29, 0x0, 0xFCEFA3F8, 9, 0x9F47E4F8);
    OperationIs(0xFE1623B1, 0x9F47E4F8, 0x790A77FB, 0x786ACB8F, block, 30, 0x0, 0x676F02D9, 14, 0xA62884AA);
    OperationIs(0x786ACB8F, 0xA62884AA, 0x9F47E4F8, 0x790A77FB, block, 31, 0x0, 0x8D2A4C8A, 20, 0x726342D3);
    FourOperations(INITIAL, block, 28);
  }

  lemma Abc36(block: seq<bv8>)
    requires AbcBlock(block)
    ensures Operations(INITIAL, block, 36) == State(0xB3707EBF, 0x3B0875C7, 0x8D212FF5, 0x60127B2E)
  {
    Abc32(block);
    OperationIs(0x790A77FB, 0x726342D3, 0xA62884AA, 0x9F47E4F8, block, 32, 0x0, 0xFFFA3942, 4, 0xB3707EBF);
    OperationIs(0x9F47E4F8, 0xB3707EBF, 0x726342D3, 0xA62884AA, block, 33, 0x0, 0x8771F681, 11, 0x60127B2E);
    OperationIs(0xA62884AA, 0x60127B2E, 0xB3707EBF, 0x726342D3, block, 34, 0x0, 0x6D9D6122, 16, 0x8D212FF5);
    OperationIs(0x726342D3, 0x8D212FF5, 0x60127B2E, 0xB3707EBF, block, 35, 0x18, 0xFDE5380C, 23, 0x3B0875C7);
    FourOperations(INITIAL, block, 32);
  }

  lemma Abc40(block: seq<bv8>)
    requires AbcBlock(block)
    ensures Operations(INITIAL, block, 40) == State(0x21B117B9, 0x5A2F5EA5, 0x3575227E, 0x6E7429D5)
  {
    Abc36(block);
    OperationIs(0xB3707EBF, 0x3B0875C7, 0x8D212FF5, 0x60127B2E, block, 36, 0x0, 0xA4BEEA44, 4, 0x21B117B9);
    OperationIs(0x60127B2E, 0x21B117B9, 0x3B0875C7, 0x8D212FF5, block, 37, 0x0, 0x4BDECFA9, 11, 0x6E7429D5);
    OperationIs(0x8D212FF5, 0x6E7429D5, 0x21B117B9, 0x3B0875C7, block, 38, 0x0, 0xF6BB4B60, 16, 0x3575227E);
    OperationIs(0x3B0875C7, 0x3575227E, 0x6E7429D5, 0x21B117B9, block, 39, 0x0, 0xBEBFBC70, 23, 0x5A2F5EA5);
    FourOperations(INITIAL, block, 36);
  }

  lemma Abc44(block: seq<bv8>)
    requires AbcBlock(block)
    ensures Operations(INITIAL, block, 44) == State(0x11DE1779, 0x4C6124F4, 0x31C465CA, 0xFADCAA38)
  {
    Abc40(block);
    OperationIs(0x21B117B9, 0x5A2F5EA5, 0x3575227E, 0x6E7429D5, block, 40, 0x0, 0x289B7EC6, 4, 0x11DE1779);
    OperationIs(0x6E7429D5, 0x11DE1779, 0x5A2F5EA5, 0x3575227E, block, 41, 0x80636261, 0xEAA127FA, 11, 0xFADCAA38);
    OperationIs(0x3575227E, 0xFADCAA38, 0x11DE1779, 0x5A2F5EA5, block, 42, 0x0, 0xD4EF3085, 16, 0x31C465CA);
    OperationIs(0x5A2F5EA5, 0x31C465CA, 0xFADCAA38, 0x11DE1779, block, 43, 0x0, 0x04881D05, 23, 0x4C6124F4);
    FourOperations(INITIAL, block, 40);
  }

  lemma Abc48(block: seq<bv8>)
    requires AbcBlock(block)
    ensures Operations(INITIAL, block, 48) == State(0x7F2E507B, 0x7BEB9700, 0x8FAE6399, 0x99D9679D)
  {
    Abc44(block);
    OperationIs(0x11DE1779, 0x4C6124F4, 0x31C465CA, 0xFADCAA38, block, 44, 0x0, 0xD9D4D039, 4, 0x7F2E507B);
    OperationIs(0xFADCAA38, 0x7F2E507B, 0x4C6124F4, 0x31C465CA, block, 45, 0x0, 0xE6DB99E5, 11, 0x99D9679D);
    OperationIs(0x31C465CA, 0x99D9679D, 0x7F2E507B, 0x4C6124F4, block, 46, 0x0, 0x1FA27CF8, 16, 0x8FAE6399);
    OperationIs(0x4C6124F4, 0x8FAE6399, 0x99D9679D, 0x7F2E507B, block, 47, 0x0, 0xC4AC5665, 23, 0x7BEB9700);
    FourOperations(INITIAL, block, 44);
  }

  lemma Abc52(block: seq<bv8>)
    requires AbcBlock(block)
    ensures Operations(INITIAL, block, 52) == State(0x7B201DF8, 0x8BF025C4, 0xB298CEFD, 0xF4E8E96E)
  {
    Abc48(block);
    OperationIs(0x7F2E507B, 0x7BEB9700, 0x8FAE6399, 0x99D9679D, block, 48, 0x80636261, 0xF4292244, 6, 0x7B201DF8);
    OperationIs(0x99D9679D, 0x7B201DF8, 0x7BEB9700, 0x8FAE6399, block, 49, 0x0, 0x432AFF97, 10, 0xF4E8E96E);
    OperationIs(0x8FAE6399, 0xF4E8E96E, 0x7B201DF8, 0x7BEB9700, block, 50, 0x18, 0xAB9423A7, 15, 0xB298CEFD);
    OperationIs(0x7BEB9700, 0xB298CEFD, 0xF4E8E96E, 0x7B201DF8, block, 51, 0x0, 0xFC93A039, 21, 0x8BF025C4);
    FourOperations(INITIAL, block, 48);
  }

  lemma Abc56(block: seq<bv8>)
    requires AbcBlock(block)
    ensures Operations(INITIAL, block, 56) == State(0x06CC5E8A, 0x3BFA2C27, 0x7D632DD0, 0x5B0D97AA)
  {
    Abc52(block);
    OperationIs(0x7B201DF8, 0x8BF025C4, 0xB298CEFD, 0xF4E8E96E, block, 52, 0x0, 0x655B59C3, 6, 0x06CC5E8A);
    OperationIs(0xF4E8E96E, 0x06CC5E8A, 0x8BF025C4, 0xB298CEFD, block, 53, 0x0, 0x8F0CCC92, 10, 0x5B0D97AA);
    OperationIs(0xB298CEFD, 0x5B0D97AA, 0x06CC5E8A, 0x8BF025C4, block, 54, 0x0, 0xFFEFF47D, 15, 0x7D632DD0);
    OperationIs(0x8BF025C4, 0x7D632DD0, 0x5B0D97AA, 0x06CC5E8A, block, 55, 0x0, 0x85845DD1, 21, 0x3BFA2C27);
    FourOperations(INITIAL, block, 52);
  }

  lemma Abc60(block: seq<bv8>)
    requires AbcBlock(block)
    ensures Operations(INITIAL, block, 60) == State(0x7F81CC35, 0x7327D604, 0x4F9DBE3F, 0x094454AB)
  {
    Abc56(block);
    OperationIs(0x06CC5E8A, 0x3BFA2C27, 0x7D632DD0, 0x5B0D97AA, block, 56, 0x0, 0x6FA87E4F, 6, 0x7F81CC35);
    OperationIs(0x5B0D97AA, 0x7F81CC35, 0x3BFA2C27, 0x7D632DD0, block, 57, 0x0, 0xFE2CE6E0, 10, 0x094454AB);
    OperationIs(0x7D632DD0, 0x094454AB, 0x7F81CC35, 0x3BFA2C27, block, 58, 0x0, 0xA3014314, 15, 0x4F9DBE3F);
    OperationIs(0x3BFA2C27, 0x4F9DBE3F, 0x094454AB, 0x7F81CC35, block, 59, 0x0, 0x4E0811A1, 21, 0x7327D604);
    FourOperations(INITIAL, block, 56);
  }

  lemma Abc64(block: seq<bv8>)
    requires AbcBlock(block)
    ensures Operations(INITIAL, block, 64) == State(0x310ADE8F, 0xC08226B3, 0xE484B9D8, 0x624D8CB2)
  {
    Abc60(block);
    OperationIs(0x7F81CC35, 0x7327D604, 0x4F9DBE3F, 0x094454AB, block, 60, 0x0, 0xF7537E82, 6, 0x310ADE8F);
    OperationIs(0x094454AB, 0x310ADE8F, 0x7327D604, 0x4F9DBE3F, block, 61, 0x0, 0xBD3AF235, 10, 0x624D8CB2);
    OperationIs(0x4F9DBE3F, 0x624D8CB2, 0x310ADE8F, 0x7327D604, block, 62, 0x0, 0x2AD7D2BB, 15, 0xE484B9D8);
    OperationIs(0x7327D604, 0xE484B9D8, 0x624D8CB2, 0x310ADE8F, block, 63, 0x0, 0xEB86D391, 21, 0xC08226B3);
    FourOperations(INITIAL, block, 60);
  }

  lemma AbcProcessed(block: seq<bv8>)
    requires AbcBlock(block)
    ensures Process(INITIAL, block) == State(0x98500190, 0xB04FD23C, 0x7D3F96D6, 0x727FE128)
  {
    Abc64(block);
  }

  lemma AbcPadded(msg: seq<bv8>)
    requires msg == [0x61, 0x62, 0x63]
    ensures Padded(msg) == [0x61, 0x62, 0x63, 0x80] + Zeros(52) + [24, 0, 0, 0, 0, 0, 0, 0]
  {
    ValueIs(24);
    ShortPadded(msg, 3, 24, 24);
    assert msg + [0x80] == [0x61, 0x62, 0x63, 0x80];
  }

  lemma AbcWords(block: seq<bv8>)
    requires block == [0x61, 0x62, 0x63, 0x80] + Zeros(52) + [24, 0, 0, 0, 0, 0, 0, 0]
    ensures AbcBlock(block)
  {
    forall k | 0 <= k < 16
      ensures Words(block)[k] == if k == 0 then 0x80636261 else if k == 14 then 24 else 0
    {
      WordsAt(block, k);
    }
  }

  lemma AbcSpelled()
    ensures StateBytes(State(0x98500190, 0xB04FD23C, 0x7D3F96D6, 0x727FE128)) ==
            [0x90, 0x01, 0x50, 0x98, 0x3C, 0xD2, 0x4F, 0xB0, 0xD6, 0x96, 0x3F, 0x7D, 0x28, 0xE1, 0x7F, 0x72]
  {
  }

  /** MD5 of "abc". */
  lemma AbcAnswer(msg: seq<bv8>)
    requires msg == [0x61, 0x62, 0x63]
    ensures Hash(Process, msg) ==
            [0x90, 0x01, 0x50, 0x98, 0x3C, 0xD2, 0x4F, 0xB0, 0xD6, 0x96, 0x3F, 0x7D, 0x28, 0xE1, 0x7F, 0x72]
  {
    AbcPadded(msg);
    OneBlock(msg);
    AbcWords(Padded(msg));
    AbcProcessed(Padded(msg));
    AbcSpelled();
  }

}
