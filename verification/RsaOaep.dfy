/** RSAES-OAEP: the padding of one module around the public and private operations of the other. */
module RsaOaep {
  import opened Octets
  import opened BinaryIO
  import opened NumberTheory
  import opened Division
  import Bits
  import Rsa
  import O = Oaep
  import opened Options

  /** The bytes of a buffer as numbers, the way the big-number code reads them. */
  function Numbers(s: seq<bv8>): (r: seq<Byte>)
    ensures |r| == |s|
  {
    seq(|s|, k requires 0 <= k < |s| => Value(s[k]))
  }

  function Bytes(s: seq<Byte>): (r: seq<bv8>)
    ensures |r| == |s|
  {
    seq(|s|, k requires 0 <= k < |s| => ByteOf(s[k]))
  }

  lemma BytesOfNumbers(s: seq<bv8>)
    ensures Bytes(Numbers(s)) == s
  {
    forall k | 0 <= k < |s|
      ensures Bytes(Numbers(s))[k] == s[k]
    {
      Same(Bytes(Numbers(s))[k], s[k]);
    }
  }

  /** The modulus has exactly as many bytes as the context says. */
  ghost predicate FullLength(ctx: Rsa.RsaContext)
    reads ctx, ctx.N
  {
    ctx.len > 0 && Rsa.ByteLen(ctx.N.Abs()) == ctx.len
  }

  lemma TopByte(v: nat, len: nat)
    requires len > 0 && Rsa.ByteLen(v) == len
    ensures Bits.P2(8 * (len - 1)) <= v
  {
    Bits.BitLenBounds(v);
    Bits.P2Monotone(8 * (len - 1), Bits.BitLen(v) - 1);
  }

  /** A block that starts with a zero is below a modulus of full length. */
  lemma PaddedBelowModulus(v: nat, s: seq<Byte>)
    requires s != [] && s[0] == 0 && Rsa.ByteLen(v) == |s|
    ensures BE(s) < v
  {
    TopByte(v, |s|);
    BEBound(s[1..]);
    assert BE(s) == BE(s[1..]);
  }

  /** What encryption makes of a message. */
  ghost predicate Encrypted(ctx: Rsa.RsaContext, h: O.Digest, tag: seq<bv8>, seed: seq<bv8>, msg: seq<bv8>,
                            out: seq<Byte>)
    requires O.Proper(h) && |seed| == h.size && ctx.len >= |msg| + 2 * h.size + 2
    reads ctx, ctx.N, ctx.E
  {
    Rsa.PublicResult(ctx.N.Abs(), ctx.E.Abs(), Numbers(O.Encode(h, tag, seed, msg, ctx.len)), out)
  }

  /** What comes back of the two functions: refused or ended by the padding, or what the RSA operation returned. */
  datatype Outcome = Padding(status: O.Status) | Operation(ret: Rsa.RsaRet)

  /** The padded message as the public operation takes it. */
  ghost function Block(ctx: Rsa.RsaContext, h: O.Digest, tag: seq<bv8>, seed: seq<bv8>, msg: seq<bv8>): (s: seq<Byte>)
    requires O.Proper(h) && |seed| == h.size && ctx.len >= |msg| + 2 * h.size + 2
    reads ctx
    ensures |s| == ctx.len
  {
    Numbers(O.Encode(h, tag, seed, msg, ctx.len))
  }

  /** When the public operation succeeds. */
  ghost predicate PublicTakes(ctx: Rsa.RsaContext, block: seq<Byte>)
    requires ctx.N.p != []
    reads ctx, ctx.N, ctx.E
  {
    && BE(block) < ctx.N.Int() && ctx.N.p[0] % 2 == 1 && ctx.E.Int() >= 0
    && Rsa.ByteLen(Mod(Pow(BE(block), ctx.E.Abs()), ctx.N.Abs())) <= ctx.len
  }

  /** With a modulus of full length every padded message is taken. */
  lemma PaddedTaken(ctx: Rsa.RsaContext, block: seq<Byte>)
    requires ctx.N.Num() && ctx.N.Int() >= 0 && FullLength(ctx) && |block| == ctx.len && block[0] == 0
    ensures PublicTakes(ctx, block) <==> ctx.N.p[0] % 2 == 1 && ctx.E.Int() >= 0
  {
    PaddedBelowModulus(ctx.N.Abs(), block);
    ModShift(Pow(BE(block), ctx.E.Abs()), ctx.N.Abs());
    Bits.BitLenMonotone(Mod(Pow(BE(block), ctx.E.Abs()), ctx.N.Abs()), ctx.N.Abs());
  }

  /** rsa_rsaes_oaep_encrypt with the public key. */
  method Encrypt(ctx: Rsa.RsaContext, h: O.Digest, tag: seq<bv8>, seed: seq<bv8>, input: seq<bv8>)
    returns (ret: Outcome, output: seq<Byte>)
    requires O.Proper(h) && |seed| == h.size
    requires ctx.Apart() && ctx.N.Num() && ctx.E.Num() && Rsa.CacheOk(ctx.RN, ctx.N)
    modifies ctx.RN
    ensures ret.Padding? <==> ctx.len < |input| + 2 * h.size + 2
    ensures ret.Padding? ==> ret.status == O.BadInput && Rsa.CacheOk(ctx.RN, ctx.N)
    ensures ret.Operation? ==> (ret.ret == Rsa.Done <==> PublicTakes(ctx, Block(ctx, h, tag, seed, input)))
    ensures ret.Operation? ==> (ret.ret == Rsa.BadInput <==> BE(Block(ctx, h, tag, seed, input)) >= ctx.N.Int())
    ensures ret == Operation(Rsa.Done) ==> Encrypted(ctx, h, tag, seed, input, output) && Rsa.CacheOk(ctx.RN, ctx.N)
    ensures ret.Operation? && FullLength(ctx) && ctx.N.Int() >= 0 ==>
              (ret.ret == Rsa.Done <==> ctx.N.p[0] % 2 == 1 && ctx.E.Int() >= 0)
  {
    var buf := new bv8[ctx.len](i => 0);
    var padded := O.Pad(h, tag, seed, input, buf);
    if padded != O.Done {
      return Padding(padded), [];
    }
    var block := Numbers(buf[..]);
    ZeroFirst(h, tag, seed, input, ctx.len);
    if FullLength(ctx) && ctx.N.Int() >= 0 {
      PaddedTaken(ctx, block);
    }
    var rsa;
    rsa, output := Rsa.Public(ctx, block);
    ret := Operation(rsa);
  }

  lemma ZeroFirst(h: O.Digest, tag: seq<bv8>, seed: seq<bv8>, msg: seq<bv8>, olen: nat)
    requires O.Proper(h) && |seed| == h.size && olen >= |msg| + 2 * h.size + 2
    ensures Numbers(O.Encode(h, tag, seed, msg, olen))[0] == 0
  {
  }

  /** When the private operation succeeds. */
  ghost predicate PrivateTakes(ctx: Rsa.RsaContext, input: seq<Byte>)
    requires ctx.P.p != [] && ctx.Q.p != []
    reads ctx, ctx.N, ctx.P, ctx.Q, ctx.DP, ctx.DQ, ctx.QP
  {
    && BE(input) < ctx.N.Int() && Rsa.CrtUsable(ctx)
    && Rsa.ByteLen(Rsa.PrivateValue(ctx, BE(input))) <= ctx.len
  }

  /** What is made of a decrypted block. */
  ghost predicate Unpadded(h: O.Digest, tag: seq<bv8>, block: seq<bv8>, max: nat, status: O.Status, output: seq<bv8>)
    requires O.Proper(h) && |block| >= 2 * h.size + 2
  {
    var msg := O.Decode(h, tag, block);
    && status == (if msg.None? then O.InvalidPadding else if |msg.value| > max then O.OutputTooLarge else O.Done)
    && (status == O.Done ==> msg == Some(output))
  }

  /** rsa_rsaes_oaep_decrypt with the private key, by the CRT. */
  method Decrypt(ctx: Rsa.RsaContext, h: O.Digest, tag: seq<bv8>, input: seq<Byte>, outputMaxLen: nat)
    returns (ret: Outcome, output: seq<bv8>, ghost plain: seq<Byte>)
    requires O.Proper(h) && |input| == ctx.len >= 2 * h.size + 2
    requires ctx.N.Num() && Rsa.CrtReady(ctx)
    modifies ctx.RP, ctx.RQ
    ensures ret == Padding(O.BadInput) <==> !(16 <= ctx.len <= 512)
    ensures ret != Padding(O.BadInput) ==> (ret.Padding? <==> PrivateTakes(ctx, input))
    ensures ret.Operation? ==> ret.ret != Rsa.Done && (ret.ret == Rsa.BadInput <==> BE(input) >= ctx.N.Int())
    ensures ret.Padding? && ret.status != O.BadInput ==>
              && Rsa.CrtReady(ctx) && Rsa.PrivateResult(ctx, input, plain) && |plain| == ctx.len
              && Unpadded(h, tag, Bytes(plain), outputMaxLen, ret.status, output)
  {
    output, plain := [], [];
    if ctx.len < 16 || ctx.len > O.MPI_MAX_SIZE {
      return Padding(O.BadInput), [], [];
    }
    var rsa, numbers := Rsa.Private(ctx, input);
    if rsa != Rsa.Done {
      return Operation(rsa), [], [];
    }
    plain := numbers;
    var block := Bytes(numbers);
    var buf := new bv8[|block|](i requires 0 <= i < |block| => block[i]);
    assert buf[..] == block;
    var status;
    status, output := O.Unpad(h, tag, buf, outputMaxLen);
    ret := Padding(status);
  }

  /**
   * Decryption returns the message that was encrypted, for every accepted key with prime
   * factors, every hash, label, seed and message: the private operation gives the padded block
   * back, and the padding comes off.
   */
  lemma DecryptUndoesEncrypt(ctx: Rsa.RsaContext, h: O.Digest, tag: seq<bv8>, seed: seq<bv8>, msg: seq<bv8>,
                             cipher: seq<Byte>, plain: seq<Byte>)
    requires O.Proper(h) && |seed| == h.size && ctx.len >= |msg| + 2 * h.size + 2
    requires Rsa.PrimeKey(ctx) && ctx.E.Int() >= 0
    requires Encrypted(ctx, h, tag, seed, msg, cipher)
    requires Rsa.PrivateResult(ctx, cipher, plain)
    ensures |plain| == ctx.len && O.Decode(h, tag, Bytes(plain)) == Some(msg)
  {
    var block := O.Encode(h, tag, seed, msg, ctx.len);
    Rsa.PublicThenPrivate(ctx, Numbers(block), cipher, plain);
    BytesOfNumbers(block);
    O.DecodeEncode(h, tag, seed, msg, ctx.len);
  }

  /** The length of an accepted modulus in bytes is within the limits of the decryption. */
  lemma KeyLength(ctx: Rsa.RsaContext)
    requires Rsa.PrimeKey(ctx) && FullLength(ctx)
    ensures 16 <= ctx.len <= 512 && ctx.N.Num() && ctx.E.Num() && ctx.N.Int() >= 0 && ctx.N.p[0] % 2 == 1
  {
    Rsa.KeySigns(ctx);
  }

  /**
   * A message goes through encryption and decryption and comes back, with every accepted key of
   * full length and prime factors, every hash, label and seed, and every message that fits: neither
   * operation fails.
   */
  method RoundTrip(ctx: Rsa.RsaContext, h: O.Digest, tag: seq<bv8>, seed: seq<bv8>, msg: seq<bv8>, outputMaxLen: nat)
    returns (sent: Outcome, ret: Outcome, output: seq<bv8>)
    requires O.Proper(h) && |seed| == h.size
    requires Rsa.PrimeKey(ctx) && FullLength(ctx) && ctx.E.Int() >= 0 && Rsa.CacheOk(ctx.RN, ctx.N)
    requires ctx.len >= |msg| + 2 * h.size + 2 && outputMaxLen >= |msg|
    modifies ctx.RN, ctx.RP, ctx.RQ
    ensures sent == Operation(Rsa.Done) && ret == Padding(O.Done) && output == msg
  {
    KeyLength(ctx);
    var cipher;
    sent, cipher := Encrypt(ctx, h, tag, seed, msg);
    Rsa.PrivateNeverFails(ctx, BE(cipher));
    BelowModulus(BE(Block(ctx, h, tag, seed, msg)), ctx.E.Abs(), ctx.N.Abs());
    ghost var plain;
    ret, output, plain := Decrypt(ctx, h, tag, cipher, outputMaxLen);
    DecryptUndoesEncrypt(ctx, h, tag, seed, msg, cipher, plain);
  }

  lemma BelowModulus(x: nat, e: nat, n: nat)
    requires n > 0
    ensures Mod(Pow(x, e), n) < n
  {
    ModShift(Pow(x, e), n);
  }
}
