/**
 * The older RSA padding, RSAES-PKCS1-v1_5 (RFC 8017, section 7.2): a block type, padding bytes
 * without a zero in them, a zero, and the message.
 */
module Pkcs1 {
  import opened Options

  datatype Mode = PublicKey | PrivateKey

  datatype Status = Done | BadInput | InvalidPadding | OutputTooLarge

  const MPI_MAX_SIZE := 512
  const SIGN: bv8 := 1
  const CRYPT: bv8 := 2

  /** Padding for a block type: any nonzero bytes to encrypt, 0xFF bytes to sign. */
  predicate PaddingFor(bt: bv8, pad: seq<bv8>) {
    if bt == CRYPT then forall k :: 0 <= k < |pad| ==> pad[k] != 0
    else forall k :: 0 <= k < |pad| ==> pad[k] == 0xFF
  }

  function Encode(bt: bv8, pad: seq<bv8>, msg: seq<bv8>): (s: seq<bv8>)
    ensures |s| == |pad| + |msg| + 3
  {
    [0, bt] + pad + [0] + msg
  }

  /** The block type each mode puts on and the one it expects to take off. */
  function TypeOn(mode: Mode): bv8 {
    if mode == PublicKey then CRYPT else SIGN
  }

  function TypeOff(mode: Mode): bv8 {
    if mode == PrivateKey then CRYPT else SIGN
  }

  /** A byte that may stand in the padding. */
  predicate Pads(bt: bv8, b: bv8) {
    if bt == CRYPT then b != 0 else b == 0xFF
  }

  /** Where the padding that starts at `p` stops, at the last byte at the latest. */
  ghost function PadEnd(buf: seq<bv8>, p: nat): (q: nat)
    requires 2 <= p < |buf|
    ensures p <= q < |buf|
    ensures forall k :: p <= k < q ==> Pads(buf[1], buf[k])
    ensures q < |buf| - 1 ==> !Pads(buf[1], buf[q])
    decreases |buf| - p
  {
    if p < |buf| - 1 && Pads(buf[1], buf[p]) then PadEnd(buf, p + 1) else p
  }

  ghost function Decode(mode: Mode, buf: seq<bv8>): Option<seq<bv8>>
    requires |buf| >= 16
  {
    var q := PadEnd(buf, 2);
    if buf[0] == 0 && buf[1] == TypeOff(mode) && buf[q] == 0 && q < |buf| - 1 then Some(buf[q + 1..]) else None
  }

  /**
   * The block in the standard's terms: 00, block type 02 to encrypt and 01 to sign, the padding, 00
   * and the message; the padding holds no zero to encrypt, and FF only to sign.
   */
  lemma BlockAsStandard(mode: Mode, pad: seq<bv8>, msg: seq<bv8>)
    requires PaddingFor(TypeOn(mode), pad)
    ensures Encode(TypeOn(mode), pad, msg) == [0x00, if mode == PublicKey then 0x02 else 0x01] + pad + [0x00] + msg
    ensures mode == PublicKey ==> 0x00 !in pad
    ensures mode == PrivateKey ==> forall k :: 0 <= k < |pad| ==> pad[k] == 0xFF
  {
  }

  /** What is accepted carries the type of the other side's padding. */
  lemma AcceptedType(mode: Mode, buf: seq<bv8>)
    requires |buf| >= 16 && Decode(mode, buf).Some?
    ensures buf[0] == 0x00 && buf[1] == (if mode == PrivateKey then 0x02 else 0x01)
  {
  }

  /** The padding bytes: from the random source to encrypt, all 0xFF to sign. */
  method FillPadding(mode: Mode, random: seq<bv8>, nbPad: nat, output: array<bv8>) returns (ghost pad: seq<bv8>)
    requires 2 + nbPad <= output.Length
    requires mode == PublicKey ==> PaddingFor(CRYPT, random) && |random| == nbPad
    modifies output
    ensures |pad| == nbPad && PaddingFor(TypeOn(mode), pad)
    ensures output[..] == old(output[..2]) + pad + old(output[2 + nbPad..])
  {
    var i := 0;
    pad := if mode == PublicKey then random else seq(nbPad, k => 0xFF);
    while i < nbPad
      invariant 0 <= i <= nbPad
      invariant forall k :: 0 <= k < output.Length ==>
                  output[k] == if 2 <= k < 2 + i then pad[k - 2] else old(output[k])
    {
      output[2 + i] := if mode == PublicKey then random[i] else 0xFF;
      i := i + 1;
    }
  }

  /** Fill the block: type, padding, a zero, the message. */
  method Pad(mode: Mode, random: seq<bv8>, input: seq<bv8>, output: array<bv8>)
    returns (ret: Status, ghost pad: seq<bv8>)
    requires mode == PublicKey && |input| + 11 <= output.Length ==>
               PaddingFor(CRYPT, random) && |random| + |input| + 3 == output.Length
    modifies output
    ensures ret == (if output.Length < |input| + 11 then BadInput else Done)
    ensures ret == Done ==> PaddingFor(TypeOn(mode), pad) && output[..] == Encode(TypeOn(mode), pad, input)
    ensures ret != Done ==> output[..] == old(output[..])
  {
    var olen := output.Length;
    pad := [];
    if olen < |input| + 11 {
      return BadInput, pad;
    }
    var nbPad := olen - 3 - |input|;
    output[0] := 0;
    output[1] := TypeOn(mode);
    pad := FillPadding(mode, random, nbPad, output);
    output[2 + nbPad] := 0;
    forall k | 0 <= k < |input| {
      output[3 + nbPad + k] := input[k];
    }
    ret := Done;
  }

  method SkipNonzero(buf: array<bv8>) returns (p: nat)
    requires buf.Length >= 16 && buf[1] == CRYPT
    ensures p == PadEnd(buf[..], 2)
  {
    p := 2;
    while buf[p] != 0 && p < buf.Length - 1
      invariant 2 <= p < buf.Length && PadEnd(buf[..], 2) == PadEnd(buf[..], p)
      decreases buf.Length - p
    {
      p := p + 1;
    }
  }

  method SkipOnes(buf: array<bv8>) returns (p: nat)
    requires buf.Length >= 16 && buf[1] != CRYPT
    ensures p == PadEnd(buf[..], 2)
  {
    p := 2;
    while buf[p] == 0xFF && p < buf.Length - 1
      invariant 2 <= p < buf.Length && PadEnd(buf[..], 2) == PadEnd(buf[..], p)
      decreases buf.Length - p
    {
      p := p + 1;
    }
  }

  /** Find the end of the padding and check all around it. */
  method Unpad(mode: Mode, buf: array<bv8>, outputMaxLen: nat) returns (ret: Status, output: seq<bv8>)
    ensures ret == BadInput <==> !(16 <= buf.Length <= 512)
    ensures ret != BadInput ==> (ret == InvalidPadding <==> Decode(mode, buf[..]).None?)
    ensures ret == Done ==> Decode(mode, buf[..]) == Some(output) && |output| <= outputMaxLen
    ensures ret == OutputTooLarge ==> |Decode(mode, buf[..]).value| > outputMaxLen
  {
    if buf.Length < 16 || buf.Length > MPI_MAX_SIZE {
      return BadInput, [];
    }
    var correct := true;
    if buf[0] != 0 {
      correct := false;
    }
    var bt := buf[1];
    if (bt != CRYPT && mode == PrivateKey) || (bt != SIGN && mode == PublicKey) {
      correct := false;
    }
    var p;
    if bt == CRYPT {
      p := SkipNonzero(buf);
    } else {
      p := SkipOnes(buf);
    }
    correct := correct && buf[p] == 0 && p < buf.Length - 1;
    p := p + 1;
    if !correct {
      return InvalidPadding, [];
    }
    if buf.Length - p > outputMaxLen {
      return OutputTooLarge, [];
    }
    return Done, buf[p..];
  }

  lemma {:induction false} PadEndFound(buf: seq<bv8>, p: nat, q: nat)
    requires 2 <= p <= q < |buf|
    requires forall k :: p <= k < q ==> Pads(buf[1], buf[k])
    requires q < |buf| - 1 ==> !Pads(buf[1], buf[q])
    ensures PadEnd(buf, p) == q
    decreases q - p
  {
    if p < q {
      PadEndFound(buf, p + 1, q);
    }
  }

  /** An encoded message comes back exactly when it is not empty. */
  lemma DecodeEncode(mode: Mode, pad: seq<bv8>, msg: seq<bv8>)
    requires PaddingFor(TypeOff(mode), pad) && |pad| + |msg| >= 13
    ensures Decode(mode, Encode(TypeOff(mode), pad, msg)) == Some(msg) <==> msg != []
  {
    var buf := Encode(TypeOff(mode), pad, msg);
    PadEndFound(buf, 2, 2 + |pad|);
    assert buf[3 + |pad|..] == msg;
  }

  /** Nothing but an encoding of a message that is not empty is accepted. */
  lemma DecodeOnlyEncodings(mode: Mode, buf: seq<bv8>)
    requires |buf| >= 16 && Decode(mode, buf).Some?
    ensures var msg := Decode(mode, buf).value;
            && msg != []
            && exists pad: seq<bv8> :: PaddingFor(TypeOff(mode), pad) && buf == Encode(TypeOff(mode), pad, msg)
  {
    var q := PadEnd(buf, 2);
    var pad := buf[2..q];
    assert PaddingFor(TypeOff(mode), pad);
    assert buf == Encode(TypeOff(mode), pad, buf[q + 1..]);
  }
}
