/**
 * The OAEP padding of RFC 8017, section 7.1: a two-round Feistel network over a hash-based mask.
 * The buffers are filled and masked in place; the hash is any function of a fixed output length.
 */
module Oaep {
  import opened Octets
  import opened Options

  /** A message digest: its output length and the function itself. */
  datatype Digest = Digest(size: nat, of: seq<bv8> -> seq<bv8>)

  const MPI_MAX_SIZE := 512

  ghost predicate Proper(h: Digest) {
    h.size > 0 && forall m: seq<bv8> :: |h.of(m)| == h.size
  }

  datatype Status = Done | BadInput | InvalidPadding | OutputTooLarge

  // ---------------------------------------------------------------- the mask

  /** One hash block: the source and four counter bytes, of which only the last ever counts. */
  ghost function Block(h: Digest, src: seq<bv8>, c: bv8): (s: seq<bv8>)
    requires Proper(h)
    ensures |s| == h.size
  {
    h.of(src + [0, 0, 0, c])
  }

  /** `n` mask bytes from block `c` on; the counter byte wraps around. */
  ghost function Mask(h: Digest, src: seq<bv8>, n: nat, c: bv8): (s: seq<bv8>)
    requires Proper(h)
    ensures |s| == n
    decreases n
  {
    if n <= h.size then Block(h, src, c)[..n] else Block(h, src, c) + Mask(h, src, n - h.size, c + 1)
  }

  ghost function XorWith(s: seq<bv8>, mask: seq<bv8>): (r: seq<bv8>)
    requires |mask| == |s|
    ensures |r| == |s|
  {
    seq(|s|, k requires 0 <= k < |s| => s[k] ^ mask[k])
  }

  lemma XorTwice(s: seq<bv8>, mask: seq<bv8>)
    requires |mask| == |s|
    ensures XorWith(XorWith(s, mask), mask) == s
  {
  }

  /** The blocks `c` to `c + k - 1` with the full four-byte counter of RFC 8017, appendix B.2.1. */
  ghost function Mgf1Blocks(h: Digest, src: seq<bv8>, c: nat, k: nat): (s: seq<bv8>)
    requires Proper(h)
    decreases k
  {
    if k == 0 then [] else h.of(src + BigEndian(c)) + Mgf1Blocks(h, src, c + 1, k - 1)
  }

  lemma LowZero(n: nat)
    requires n < 256
    ensures Low(n / 0x100_0000) == 0 && Low(n / 0x1_0000) == 0 && Low(n / 0x100) == 0
  {
    assert n / 0x100_0000 == 0 && n / 0x1_0000 == 0 && n / 0x100 == 0;
    Same(Low(0), 0);
  }

  lemma SmallCounter(c: nat)
    requires c < 256
    ensures [0, 0, 0, ByteOf(c)] == BigEndian(c)
  {
    LowZero(c);
    Same(Low(c), ByteOf(c));
  }

  lemma Prefix(first: seq<bv8>, rest: seq<bv8>, n: nat)
    requires n <= |first|
    ensures (first + rest)[..n] == first[..n]
  {
  }

  lemma LongPrefix(first: seq<bv8>, rest: seq<bv8>, n: nat, more: seq<bv8>)
    requires |first| < n <= |first + rest| && more == rest[..n - |first|]
    ensures (first + rest)[..n] == first + more
  {
  }

  lemma MaskFirst(h: Digest, src: seq<bv8>, n: nat, c: nat)
    requires Proper(h) && c < 256 && n <= h.size
    ensures Mask(h, src, n, ByteOf(c)) == h.of(src + BigEndian(c))[..n]
  {
    SmallCounter(c);
  }

  lemma MaskOnward(h: Digest, src: seq<bv8>, n: nat, c: nat)
    requires Proper(h) && c + 1 < 256 && n > h.size
    ensures Mask(h, src, n, ByteOf(c)) == h.of(src + BigEndian(c)) + Mask(h, src, n - h.size, ByteOf(c + 1))
  {
    SmallCounter(c);
  }

  lemma MgfSplit(h: Digest, src: seq<bv8>, c: nat, k: nat)
    requires Proper(h) && k > 0
    ensures |Mgf1Blocks(h, src, c, k)| == h.size + |Mgf1Blocks(h, src, c + 1, k - 1)|
  {
  }

  lemma {:induction false} MgfLength(h: Digest, src: seq<bv8>, c: nat, k: nat)
    requires Proper(h)
    ensures |Mgf1Blocks(h, src, c, k)| <= h.size || k > 1
  {
    if k == 1 {
      assert Mgf1Blocks(h, src, c + 1, 0) == [];
    }
  }

  lemma MgfLonger(h: Digest, src: seq<bv8>, n: nat, c: nat, k: nat)
    requires Proper(h) && c + 1 < 256 && k > 0 && h.size < n <= |Mgf1Blocks(h, src, c, k)|
    requires Mask(h, src, n - h.size, ByteOf(c + 1)) == Mgf1Blocks(h, src, c + 1, k - 1)[..n - h.size]
    ensures Mask(h, src, n, ByteOf(c)) == Mgf1Blocks(h, src, c, k)[..n]
  {
    MaskOnward(h, src, n, c);
    LongPrefix(h.of(src + BigEndian(c)), Mgf1Blocks(h, src, c + 1, k - 1), n, Mask(h, src, n - h.size, ByteOf(c + 1)));
  }

  lemma MgfShort(h: Digest, src: seq<bv8>, n: nat, c: nat, k: nat)
    requires Proper(h) && c < 256 && n <= h.size && n <= |Mgf1Blocks(h, src, c, k)|
    ensures Mask(h, src, n, ByteOf(c)) == Mgf1Blocks(h, src, c, k)[..n]
  {
    MaskFirst(h, src, n, c);
    if k > 0 {
      Prefix(h.of(src + BigEndian(c)), Mgf1Blocks(h, src, c + 1, k - 1), n);
    }
  }

  /** The mask is the standard's mask as long as it takes no more than 256 blocks. */
  lemma {:induction false} MaskIsMgf1(h: Digest, src: seq<bv8>, n: nat, c: nat, k: nat)
    requires Proper(h) && c + k <= 256 && c < 256 && n <= |Mgf1Blocks(h, src, c, k)|
    ensures Mask(h, src, n, ByteOf(c)) == Mgf1Blocks(h, src, c, k)[..n]
    decreases k
  {
    if n <= h.size {
      MgfShort(h, src, n, c, k);
    } else {
      MgfLength(h, src, c, k);
      MgfSplit(h, src, c, k);
      MaskIsMgf1(h, src, n - h.size, c + 1, k - 1);
      MgfLonger(h, src, n, c, k);
    }
  }

  // ---------------------------------------------------------------- the padding

  /** The data block: label hash, zeros, a one, and the message. */
  ghost function DataBlock(h: Digest, tag: seq<bv8>, msg: seq<bv8>, n: nat): (s: seq<bv8>)
    requires Proper(h) && n >= h.size + 1 + |msg|
    ensures |s| == n
  {
    h.of(tag) + Zeros(n - h.size - 1 - |msg|) + [1] + msg
  }

  /** Both rounds of the network. */
  ghost function Feistel(h: Digest, seed: seq<bv8>, db: seq<bv8>): (s: seq<bv8>)
    requires Proper(h) && |seed| == h.size
    ensures |s| == 1 + |seed| + |db|
  {
    var mdb := XorWith(db, Mask(h, seed, |db|, 0));
    [0] + XorWith(seed, Mask(h, mdb, |seed|, 0)) + mdb
  }

  ghost function Encode(h: Digest, tag: seq<bv8>, seed: seq<bv8>, msg: seq<bv8>, olen: nat): (s: seq<bv8>)
    requires Proper(h) && |seed| == h.size && olen >= |msg| + 2 * h.size + 2
    ensures |s| == olen
  {
    Feistel(h, seed, DataBlock(h, tag, msg, olen - h.size - 1))
  }

  /** EM in the terms of RFC 8017, section 7.1.1, with `k` hash blocks of MGF1 for each mask. */
  ghost predicate Standard(em: seq<bv8>, h: Digest, seed: seq<bv8>, db: seq<bv8>, k: nat)
    requires Proper(h)
  {
    && |seed| == h.size && |em| == 1 + h.size + |db|
    && em[0] == 0x00
    && |Mgf1Blocks(h, seed, 0, k)| >= |db|
    && (forall i :: 0 <= i < |db| ==> em[1 + h.size + i] == db[i] ^ Mgf1Blocks(h, seed, 0, k)[i])
    && var maskedDB := em[1 + h.size..];
       && |Mgf1Blocks(h, maskedDB, 0, k)| >= h.size
       && (forall i :: 0 <= i < h.size ==> em[1 + i] == seed[i] ^ Mgf1Blocks(h, maskedDB, 0, k)[i])
  }

  lemma {:induction false} BlocksLength(h: Digest, src: seq<bv8>, c: nat, k: nat, other: seq<bv8>)
    requires Proper(h)
    ensures |Mgf1Blocks(h, src, c, k)| == |Mgf1Blocks(h, other, c, k)|
    ensures k >= 1 ==> |Mgf1Blocks(h, src, c, k)| >= h.size
    decreases k
  {
    if k > 0 {
      BlocksLength(h, src, c + 1, k - 1, other);
    }
  }

  /** The two rounds are the two masks of the standard, seed first. */
  lemma FeistelAsStandard(h: Digest, seed: seq<bv8>, db: seq<bv8>, k: nat)
    requires Proper(h) && |seed| == h.size && 1 <= k <= 256 && |db| <= |Mgf1Blocks(h, seed, 0, k)|
    ensures Standard(Feistel(h, seed, db), h, seed, db, k)
  {
    var em := Feistel(h, seed, db);
    var mdb := XorWith(db, Mask(h, seed, |db|, 0));
    assert ByteOf(0) == 0;
    MaskIsMgf1(h, seed, |db|, 0, k);
    BlocksLength(h, mdb, 0, k, seed);
    MaskIsMgf1(h, mdb, h.size, 0, k);
    assert em[1 + h.size..] == mdb;
  }

  /** The data block is lHash, zeros, 01 and the message. */
  lemma EncodeAsStandard(h: Digest, tag: seq<bv8>, seed: seq<bv8>, msg: seq<bv8>, olen: nat, k: nat)
    requires Proper(h) && |seed| == h.size && olen >= |msg| + 2 * h.size + 2
    requires 1 <= k <= 256 && olen - h.size - 1 <= |Mgf1Blocks(h, seed, 0, k)|
    ensures Standard(Encode(h, tag, seed, msg, olen), h, seed,
                     h.of(tag) + Zeros(olen - |msg| - 2 * h.size - 2) + [0x01] + msg, k)
  {
    FeistelAsStandard(h, seed, DataBlock(h, tag, msg, olen - h.size - 1), k);
  }

  /** What follows the first one byte, if only zeros come before it. */
  ghost function AfterOne(s: seq<bv8>): (r: Option<seq<bv8>>) {
    if s == [] then None
    else if s[0] == 0 then AfterOne(s[1..])
    else if s[0] == 1 then Some(s[1..])
    else None
  }

  ghost function UnmaskedSeed(h: Digest, block: seq<bv8>): (s: seq<bv8>)
    requires Proper(h) && |block| > h.size
    ensures |s| == h.size
  {
    XorWith(block[1..h.size + 1], Mask(h, block[h.size + 1..], h.size, 0))
  }

  ghost function UnmaskedData(h: Digest, block: seq<bv8>): (s: seq<bv8>)
    requires Proper(h) && |block| > h.size
    ensures |s| == |block| - h.size - 1
  {
    XorWith(block[h.size + 1..], Mask(h, UnmaskedSeed(h, block), |block| - h.size - 1, 0))
  }

  ghost function Decode(h: Digest, tag: seq<bv8>, block: seq<bv8>): Option<seq<bv8>>
    requires Proper(h) && |block| >= 2 * h.size + 2
  {
    var db := UnmaskedData(h, block);
    if block[0] != 0 || db[..h.size] != h.of(tag) then None else AfterOne(db[h.size..])
  }

  lemma {:induction false} AfterZeros(k: nat, msg: seq<bv8>)
    ensures AfterOne(Zeros(k) + [1] + msg) == Some(msg)
  {
    var s := Zeros(k) + [1] + msg;
    if k > 0 {
      assert s[1..] == Zeros(k - 1) + [1] + msg;
      AfterZeros(k - 1, msg);
    } else {
      assert s[1..] == msg;
    }
  }

  lemma {:induction false} OnlyAfterZeros(s: seq<bv8>)
    requires AfterOne(s).Some?
    ensures var msg := AfterOne(s).value; |msg| < |s| && s == Zeros(|s| - 1 - |msg|) + [1] + msg
  {
    if s[0] == 0 {
      OnlyAfterZeros(s[1..]);
    }
  }

  /** The network undone: the rounds come off in the opposite order. */
  lemma FeistelInverse(h: Digest, seed: seq<bv8>, db: seq<bv8>)
    requires Proper(h) && |seed| == h.size
    ensures var block := Feistel(h, seed, db);
            UnmaskedSeed(h, block) == seed && UnmaskedData(h, block) == db && block[0] == 0
  {
    var block := Feistel(h, seed, db);
    var mdb := XorWith(db, Mask(h, seed, |db|, 0));
    assert block[h.size + 1..] == mdb;
    assert block[1..h.size + 1] == XorWith(seed, Mask(h, mdb, |seed|, 0));
    XorTwice(seed, Mask(h, mdb, |seed|, 0));
    XorTwice(db, Mask(h, seed, |db|, 0));
  }

  /** Every block with a leading zero is the network's image of what unmasking gives. */
  lemma FeistelOnto(h: Digest, block: seq<bv8>)
    requires Proper(h) && |block| > h.size && block[0] == 0
    ensures Feistel(h, UnmaskedSeed(h, block), UnmaskedData(h, block)) == block
  {
    var seed, data := block[1..h.size + 1], block[h.size + 1..];
    var s := UnmaskedSeed(h, block);
    XorTwice(data, Mask(h, s, |data|, 0));
    XorTwice(seed, Mask(h, data, h.size, 0));
    assert block == [0] + seed + data;
  }

  /** Decoding gives back every encoded message, for every hash, label, seed and length. */
  lemma DecodeEncode(h: Digest, tag: seq<bv8>, seed: seq<bv8>, msg: seq<bv8>, olen: nat)
    requires Proper(h) && |seed| == h.size && olen >= |msg| + 2 * h.size + 2
    ensures Decode(h, tag, Encode(h, tag, seed, msg, olen)) == Some(msg)
  {
    var n := olen - h.size - 1;
    var db := DataBlock(h, tag, msg, n);
    FeistelInverse(h, seed, db);
    assert db[..h.size] == h.of(tag);
    assert db[h.size..] == Zeros(n - h.size - 1 - |msg|) + [1] + msg;
    AfterZeros(n - h.size - 1 - |msg|, msg);
  }

  /** Decoding accepts nothing but encodings: an accepted block is the encoding of its message. */
  lemma DecodeOnlyEncodings(h: Digest, tag: seq<bv8>, block: seq<bv8>)
    requires Proper(h) && |block| >= 2 * h.size + 2 && Decode(h, tag, block).Some?
    ensures var msg := Decode(h, tag, block).value;
            && |block| >= |msg| + 2 * h.size + 2
            && block == Encode(h, tag, UnmaskedSeed(h, block), msg, |block|)
  {
    var db := UnmaskedData(h, block);
    OnlyAfterZeros(db[h.size..]);
    var msg := Decode(h, tag, block).value;
    assert db == db[..h.size] + db[h.size..];
    assert db == DataBlock(h, tag, msg, |db|);
    FeistelOnto(h, block);
  }

  // ---------------------------------------------------------------- the program

  /** A buffer with a mask XORed in from position `dst` on. */
  ghost function MaskedAt(s: seq<bv8>, dst: nat, mask: seq<bv8>): (r: seq<bv8>)
    requires dst + |mask| <= |s|
    ensures |r| == |s|
  {
    s[..dst] + XorWith(s[dst..dst + |mask|], mask) + s[dst + |mask|..]
  }

  lemma MaskedNothing(s: seq<bv8>, dst: nat)
    requires dst <= |s|
    ensures MaskedAt(s, dst, []) == s
  {
  }

  lemma MaskedMore(s: seq<bv8>, dst: nat, mask: seq<bv8>, more: seq<bv8>)
    requires dst + |mask| + |more| <= |s|
    ensures MaskedAt(MaskedAt(s, dst, mask), dst + |mask|, more) == MaskedAt(s, dst, mask + more)
  {
  }

  method XorBlock(a: array<bv8>, p: nat, mask: seq<bv8>)
    requires p + |mask| <= a.Length
    modifies a
    ensures a[..] == MaskedAt(old(a[..]), p, mask)
  {
    var i := 0;
    while i < |mask|
      invariant 0 <= i <= |mask|
      invariant forall k :: 0 <= k < a.Length ==> a[k] == if p <= k < p + i then old(a[k]) ^ mask[k - p] else old(a[k])
    {
      a[p + i] := a[p + i] ^ mask[i];
      i := i + 1;
    }
  }

  lemma MaskRest(h: Digest, src: seq<bv8>, n: nat, c: bv8)
    requires Proper(h)
    ensures var used := if n < h.size then n else h.size;
            Mask(h, src, n, c)[used..] == Mask(h, src, n - used, c + 1)
  {
  }

  /** One round of the loop: mask the next block, or what is left of it. */
  method MaskBlock(a: array<bv8>, p: nat, n: nat, src: seq<bv8>, c: bv8, h: Digest, ghost rest: seq<bv8>)
    returns (used: nat)
    requires Proper(h) && n > 0 && p + n <= a.Length && rest == Mask(h, src, n, c)
    modifies a
    ensures 0 < used <= n
    ensures a[..] == MaskedAt(old(a[..]), p, rest[..used])
    ensures rest[used..] == Mask(h, src, n - used, c + 1)
  {
    used := if n < h.size then n else h.size;
    var mask := h.of(src + [0, 0, 0, c]);
    assert rest[..used] == mask[..used];
    MaskRest(h, src, n, c);
    XorBlock(a, p, mask[..used]);
  }

  /** The first `done` bytes of a mask are in, `rest` is to come. */
  ghost predicate Partly(s: seq<bv8>, was: seq<bv8>, dst: nat, whole: seq<bv8>, done: nat, rest: seq<bv8>)
    requires dst + |whole| <= |was|
  {
    done <= |whole| && s == MaskedAt(was, dst, whole[..done]) && whole[done..] == rest
  }

  lemma PartlyMore(s: seq<bv8>, t: seq<bv8>, was: seq<bv8>, dst: nat, whole: seq<bv8>, done: nat, rest: seq<bv8>,
                   used: nat)
    requires dst + |whole| <= |was| && Partly(s, was, dst, whole, done, rest) && used <= |rest|
    requires t == MaskedAt(s, dst + done, rest[..used])
    ensures Partly(t, was, dst, whole, done + used, rest[used..])
  {
    MaskedMore(was, dst, whole[..done], rest[..used]);
    assert whole[..done] + rest[..used] == whole[..done + used];
  }

  method MaskNext(a: array<bv8>, ghost was: seq<bv8>, dst: nat, h: Digest, src: seq<bv8>, dlen: nat,
                  ghost whole: seq<bv8>, done: nat, c: bv8, ghost rest: seq<bv8>)
    returns (next: nat)
    requires Proper(h) && |whole| == dlen && dst + dlen <= |was| == a.Length && done < dlen
    requires rest == Mask(h, src, dlen - done, c) && Partly(a[..], was, dst, whole, done, rest)
    modifies a
    ensures done < next <= dlen && Partly(a[..], was, dst, whole, next, rest[next - done..])
    ensures rest[next - done..] == Mask(h, src, dlen - next, c + 1)
  {
    ghost var s := a[..];
    var used := MaskBlock(a, dst + done, dlen - done, src, c, h, rest);
    next := done + used;
    assert next - done == used;
    PartlyMore(s, a[..], was, dst, whole, done, rest, used);
  }

  /** Mask `dlen` bytes at `dst` with the mask made from the `slen` bytes at `src`. */
  method MgfMask(a: array<bv8>, dst: nat, dlen: nat, src: nat, slen: nat, h: Digest)
    requires Proper(h) && dst + dlen <= a.Length && src + slen <= a.Length
    requires dst + dlen <= src || src + slen <= dst
    modifies a
    ensures a[..] == MaskedAt(old(a[..]), dst, Mask(h, old(a[src..src + slen]), dlen, 0))
  {
    var source := a[src..src + slen];
    ghost var was, whole := a[..], Mask(h, source, dlen, 0);
    var done, c := 0, 0;
    MaskedNothing(was, dst);
    assert whole[..0] == [] && whole[0..] == whole;
    while done < dlen
      invariant done <= dlen && Partly(a[..], was, dst, whole, done, Mask(h, source, dlen - done, c))
    {
      done := MaskNext(a, was, dst, h, source, dlen, whole, done, c, Mask(h, source, dlen - done, c));
      c := c + 1;
    }
    assert whole[..dlen] == whole;
  }

  /** A buffer with some bytes written over from position `p` on. */
  ghost function Put(s: seq<bv8>, p: nat, bytes: seq<bv8>): (r: seq<bv8>)
    requires p + |bytes| <= |s|
    ensures |r| == |s|
  {
    s[..p] + bytes + s[p + |bytes|..]
  }

  method MemCpy(a: array<bv8>, p: nat, bytes: seq<bv8>)
    requires p + |bytes| <= a.Length
    modifies a
    ensures a[..] == Put(old(a[..]), p, bytes)
  {
    forall k | 0 <= k < |bytes| {
      a[p + k] := bytes[k];
    }
  }

  method MemSet(a: array<bv8>)
    modifies a
    ensures a[..] == Zeros(a.Length)
  {
    forall k | 0 <= k < a.Length {
      a[k] := 0;
    }
  }

  lemma LaidOut(z: seq<bv8>, at: nat, hash: seq<bv8>, input: seq<bv8>)
    requires at + |hash| + 1 + |input| <= |z| && z[at..] == Zeros(|z| - at)
    ensures
      var p := |z| - |input|;
      Put(Put(Put(z, at, hash), p - 1, [1]), p, input)
      == z[..at] + (hash + Zeros(|z| - at - |hash| - 1 - |input|) + [1] + input)
  {
    var p := |z| - |input|;
    var s1 := Put(z, at, hash);
    assert s1[..p - 1] == z[..at] + hash + Zeros(|z| - at - |hash| - 1 - |input|);
    assert Put(s1, p - 1, [1])[..p] == s1[..p - 1] + [1];
  }

  /** The data block, written over zeros. */
  method LayData(h: Digest, tag: seq<bv8>, input: seq<bv8>, output: array<bv8>, at: nat)
    requires Proper(h) && at + h.size + 1 + |input| <= output.Length
    requires output[at..] == Zeros(output.Length - at)
    modifies output
    ensures output[..] == old(output[..at]) + DataBlock(h, tag, input, output.Length - at)
  {
    ghost var z := output[..];
    assert z[at..] == output[at..] && z[..at] == output[..at];
    LaidOut(z, at, h.of(tag), input);
    var p := at;
    MemCpy(output, p, h.of(tag));
    p := p + h.size;
    p := p + (output.Length - at - h.size - 1 - |input|);
    MemCpy(output, p, [1]);
    p := p + 1;
    MemCpy(output, p, input);
  }

  /** The unmasked block: a zero, the seed, and the data block. */
  method Layout(h: Digest, tag: seq<bv8>, seed: seq<bv8>, input: seq<bv8>, output: array<bv8>)
    requires Proper(h) && |seed| == h.size && output.Length >= |input| + 2 * h.size + 2
    modifies output
    ensures output[..] == [0] + seed + DataBlock(h, tag, input, output.Length - h.size - 1)
  {
    MemSet(output);
    MemCpy(output, 1, seed);
    LayData(h, tag, input, output, h.size + 1);
  }

  /** Masking the data part with the seed's mask. */
  lemma DataRound(seed: seq<bv8>, db: seq<bv8>, mask: seq<bv8>)
    requires |mask| == |db|
    ensures var s := [0] + seed + db;
            s[1..1 + |seed|] == seed && MaskedAt(s, |seed| + 1, mask) == [0] + seed + XorWith(db, mask)
  {
    var s := [0] + seed + db;
    assert s[1..1 + |seed|] == seed;
    assert s[|seed| + 1..] == db;
  }

  /** Masking the seed part with the data's mask. */
  lemma SeedRound(seed: seq<bv8>, db: seq<bv8>, mask: seq<bv8>)
    requires |mask| == |seed|
    ensures var s := [0] + seed + db;
            s[|seed| + 1..|s|] == db && MaskedAt(s, 1, mask) == [0] + XorWith(seed, mask) + db
  {
    var s := [0] + seed + db;
    assert s[1..1 + |seed|] == seed;
    assert s[|seed| + 1..] == db;
  }

  /** Mask the data part of a block, then its seed part. */
  method MaskBoth(h: Digest, a: array<bv8>, ghost seed: seq<bv8>, ghost db: seq<bv8>)
    requires Proper(h) && |seed| == h.size && a[..] == [0] + seed + db
    modifies a
    ensures a[..] == Feistel(h, seed, db)
  {
    var n := a.Length - h.size - 1;
    DataRound(seed, db, Mask(h, seed, n, 0));
    MgfMask(a, h.size + 1, n, 1, h.size, h);
    ghost var mdb := XorWith(db, Mask(h, seed, n, 0));
    SeedRound(seed, mdb, Mask(h, mdb, h.size, 0));
    MgfMask(a, 1, h.size, h.size + 1, n, h);
  }

  /**
   * Build the padded block in the output buffer. `tag` is the label bound to the ciphertext,
   * `seed` what the random source delivered.
   */
  method Pad(h: Digest, tag: seq<bv8>, seed: seq<bv8>, input: seq<bv8>, output: array<bv8>) returns (ret: Status)
    requires Proper(h) && |seed| == h.size
    modifies output
    ensures ret == (if output.Length < |input| + 2 * h.size + 2 then BadInput else Done)
    ensures ret == Done ==> output[..] == Encode(h, tag, seed, input, output.Length)
    ensures ret != Done ==> output[..] == old(output[..])
  {
    var olen := output.Length;
    if olen < |input| + 2 * h.size + 2 {
      return BadInput;
    }
    Layout(h, tag, seed, input, output);
    MaskBoth(h, output, seed, DataBlock(h, tag, input, olen - h.size - 1));
    ret := Done;
  }

  /** Take the masks off again: first the seed's, then the data's. */
  method UnmaskParts(h: Digest, a: array<bv8>, ghost ms: seq<bv8>, ghost mdb: seq<bv8>)
    requires Proper(h) && |ms| == h.size && a[..] == [0] + ms + mdb
    modifies a
    ensures var seed := XorWith(ms, Mask(h, mdb, h.size, 0));
            a[..] == [0] + seed + XorWith(mdb, Mask(h, seed, |mdb|, 0))
  {
    var n := a.Length - h.size - 1;
    SeedRound(ms, mdb, Mask(h, mdb, h.size, 0));
    MgfMask(a, 1, h.size, h.size + 1, n, h);
    ghost var seed := XorWith(ms, Mask(h, mdb, h.size, 0));
    DataRound(seed, mdb, Mask(h, seed, n, 0));
    MgfMask(a, h.size + 1, n, 1, h.size, h);
  }

  method UnmaskBoth(h: Digest, a: array<bv8>)
    requires Proper(h) && a.Length >= 2 * h.size + 2 && a[0] == 0
    modifies a
    ensures a[..] == [0] + UnmaskedSeed(h, old(a[..])) + UnmaskedData(h, old(a[..]))
  {
    ghost var was := a[..];
    assert was == [0] + was[1..h.size + 1] + was[h.size + 1..];
    UnmaskParts(h, a, was[1..h.size + 1], was[h.size + 1..]);
  }

  /** Skip the zeros, and find the one that ends them. */
  method FindMessage(buf: array<bv8>, start: nat) returns (ret: Status, p: nat)
    requires start < buf.Length
    ensures ret == Done || ret == InvalidPadding
    ensures ret == Done <==> AfterOne(buf[start..]).Some?
    ensures ret == Done ==> p <= buf.Length && AfterOne(buf[start..]) == Some(buf[p..])
  {
    p := start;
    while p < buf.Length && buf[p] == 0
      invariant start <= p <= buf.Length
      invariant AfterOne(buf[start..]) == AfterOne(buf[p..])
    {
      assert buf[p..][1..] == buf[p + 1..];
      p := p + 1;
    }
    if p == buf.Length {
      return InvalidPadding, p;
    }
    if buf[p] != 1 {
      return InvalidPadding, p;
    }
    assert buf[p..][1..] == buf[p + 1..];
    p := p + 1;
    ret := Done;
  }

  /** The checks on an unmasked block, and the message behind them. */
  method Strip(h: Digest, tag: seq<bv8>, buf: array<bv8>, ghost db: seq<bv8>, outputMaxLen: nat)
    returns (ret: Status, output: seq<bv8>)
    requires Proper(h) && buf.Length >= 2 * h.size + 2 && buf[h.size + 1..] == db
    ensures ret != BadInput
    ensures ret == InvalidPadding <==> db[..h.size] != h.of(tag) || AfterOne(db[h.size..]).None?
    ensures ret == Done ==> AfterOne(db[h.size..]) == Some(output) && |output| <= outputMaxLen
    ensures ret == OutputTooLarge ==> |AfterOne(db[h.size..]).value| > outputMaxLen
  {
    output := [];
    assert buf[h.size + 1..2 * h.size + 1] == db[..h.size];
    if buf[h.size + 1..2 * h.size + 1] != h.of(tag) {
      return InvalidPadding, [];
    }
    assert buf[2 * h.size + 1..] == db[h.size..];
    var p;
    ret, p := FindMessage(buf, 2 * h.size + 1);
    if ret == Done {
      if buf.Length - p > outputMaxLen {
        return OutputTooLarge, [];
      }
      output := buf[p..];
    }
  }

  /** Take the padding off a decrypted block. */
  method Unpad(h: Digest, tag: seq<bv8>, buf: array<bv8>, outputMaxLen: nat) returns (ret: Status, output: seq<bv8>)
    requires Proper(h) && buf.Length >= 2 * h.size + 2
    modifies buf
    ensures ret == BadInput <==> !(16 <= buf.Length <= 512)
    ensures ret != BadInput ==> (ret == InvalidPadding <==> Decode(h, tag, old(buf[..])).None?)
    ensures ret == Done ==> Decode(h, tag, old(buf[..])) == Some(output) && |output| <= outputMaxLen
    ensures ret == OutputTooLarge ==> |Decode(h, tag, old(buf[..])).value| > outputMaxLen
  {
    output := [];
    if buf.Length < 16 || buf.Length > MPI_MAX_SIZE {
      return BadInput, [];
    }
    if buf[0] != 0 {
      return InvalidPadding, [];
    }
    ghost var db := UnmaskedData(h, buf[..]);
    UnmaskBoth(h, buf);
    assert buf[h.size + 1..] == db;
    ret, output := Strip(h, tag, buf, db, outputMaxLen);
  }
}
