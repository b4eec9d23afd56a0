/**
 * What the device answers to each message, byte for byte, and when it leaves for the program: the
 * rules of ST's AN3155 as this bootloader keeps them, read off its single steps.
 */
module Answers {
  import opened Flash
  import opened Octets
  import opened Bootloader
  import opened Frames
  import opened Exchange

  // ---------------------------------------------------------------- single steps

  lemma PairAwaited(s: Boot, p: Poll)
    requires |s.rx| >= 2
    ensures var t := s.(blCmd := s.rx[0], rx := s.rx[2..]);
            Await(s, p) == if s.rx[0] ^ s.rx[1] != 0xFF then t.(tx := s.tx + [[0x1F]]) else t.(iapTick := 1)
  {
  }

  /** Two bytes that are each other's complement are taken as a command, any other two are refused. */
  lemma PairAnswer(s: Boot, p: Poll)
    requires Sound(s) && !s.halted && s.iapTick == 0 && |s.rx| >= 2
    ensures var t := Step(s, p);
            && t.rx == s.rx[2..] && t.flash == s.flash && !t.halted
            && (s.rx[0] ^ s.rx[1] == 0xFF ==> t.tx == s.tx && Unanswered(t) && t.blCmd == s.rx[0])
            && (s.rx[0] ^ s.rx[1] != 0xFF ==> t.tx == s.tx + [[0x1F]] && t.iapTick == 0)
  {
    PairAwaited(s, p);
  }

  /** Read, Go and Write are acknowledged and wait for an address; version and chip are told at once. */
  lemma CommandAnswer(s: Boot, p: Poll)
    requires Sound(s) && !s.halted && Unanswered(s)
    ensures var t := Step(s, p);
            && t.rx == s.rx && t.flash == s.flash && !t.halted
            && (s.blCmd == 0x11 || s.blCmd == 0x21 || s.blCmd == 0x31 ==>
                  t.tx == s.tx + [[0x79]] && Inside(t, s.blCmd, 1))
            && (s.blCmd == 0x01 ==> t.tx == s.tx + [[0x79], [s.version, 0, 0, 0x79]] && t.iapTick == 0)
            && (s.blCmd == 0x02 ==> t.tx == s.tx + [[0x79, 1, 0x04, 0x13, 0x79]] && t.iapTick == 0)
            && (s.blCmd !in [0x01, 0x02, 0x11, 0x21, 0x31] ==> t.tx == s.tx && t.iapTick == 0)
  {
  }

  /** The device's test of an address is that the four bytes and the check byte XOR to zero. */
  lemma AddressTaken(word: seq<bv8>, c: bv8, was: nat)
    requires |word| == 4
    ensures Xor(word + [c]) == 0 <==> c == Xor(LittleEndian(ShiftAll(was, word)))
    ensures ShiftAll(was, word) == WordOf(word)
  {
    StaleBitsLeave(was, word);
    XorOrder(WordOf(word));
    WordBytes(word);
    CheckByte(word, c);
  }

  /** In a read a wrong address is dropped without an answer. */
  lemma ReadAddressAnswer(s: Boot, p: Poll)
    requires Sound(s) && !s.halted && Inside(s, 0x11, 1) && |s.rx| >= 5
    ensures var t := Step(s, p);
            && t.rx == s.rx[5..] && t.flash == s.flash && !t.halted
            && (Xor(s.rx[..5]) == 0 ==>
                  t.tx == s.tx + [[0x79]] && Inside(t, 0x11, 2) && t.readAddr == WordOf(s.rx[..4]))
            && (Xor(s.rx[..5]) != 0 ==> t.tx == s.tx && t.iapTick == 0)
  {
    AddressTaken(s.rx[..4], s.rx[4], s.readAddr);
    assert s.rx[..5] == s.rx[..4] + [s.rx[4]];
  }

  /** In a write it is refused. */
  lemma WriteAddressAnswer(s: Boot, p: Poll)
    requires Sound(s) && !s.halted && Inside(s, 0x31, 1) && |s.rx| >= 5
    ensures var t := Step(s, p);
            && t.rx == s.rx[5..] && t.flash == s.flash && !t.halted
            && (Xor(s.rx[..5]) == 0 ==>
                  t.tx == s.tx + [[0x79]] && Inside(t, 0x31, 2) && t.writeAddr == WordOf(s.rx[..4]))
            && (Xor(s.rx[..5]) != 0 ==> t.tx == s.tx + [[0x1F]] && t.iapTick == 0)
  {
    AddressTaken(s.rx[..4], s.rx[4], 0);
    assert s.rx[..5] == s.rx[..4] + [s.rx[4]];
  }

  /** The bootloader is left exactly when the address and its check byte XOR to zero. */
  lemma GoAddressAnswer(s: Boot, p: Poll)
    requires Sound(s) && !s.halted && Inside(s, 0x21, 1) && |s.rx| >= 5
    ensures var t := Step(s, p);
            && t.rx == s.rx[5..] && t.flash == s.flash && t.iapTick == 0
            && (t.halted <==> Xor(s.rx[..5]) == 0)
            && t.tx == if Xor(s.rx[..5]) == 0 then s.tx + [[0x79]] else s.tx
  {
    AddressTaken(s.rx[..4], s.rx[4], 0);
    assert s.rx[..5] == s.rx[..4] + [s.rx[4]];
  }

  /** A read is answered by the bytes of the flash and their XOR exactly when its two length bytes agree. */
  lemma ReadLengthAnswer(s: Boot, p: Poll)
    requires Sound(s) && !s.halted && Inside(s, 0x11, 2) && |s.rx| >= 2
    requires 0x0800_0000 <= s.readAddr && s.readAddr + Value(s.rx[0]) + 1 <= 0x0810_0000
    ensures var t := Step(s, p); var at := s.readAddr - 0x0800_0000; var n := Value(s.rx[0]) + 1;
            && t.rx == s.rx[2..] && t.flash == s.flash && t.iapTick == 0 && !t.halted
            && (s.rx[1] == s.rx[0] ==>
                  t.tx == s.tx + [[0x79], s.flash.cell[at..at + n], [Xor(s.flash.cell[at..at + n])]])
            && (s.rx[1] != s.rx[0] ==> t.tx == s.tx)
  {
    BlockIsCells(s.flash, p.bus, s.readAddr, Value(s.rx[0]) + 1);
    if Value(s.rx[1]) == Value(s.rx[0]) {
      Same(s.rx[1], s.rx[0]);
    }
  }

  /** A length is taken exactly for whole words, and nothing is answered. */
  lemma WriteLengthAnswer(s: Boot, p: Poll)
    requires Sound(s) && !s.halted && Inside(s, 0x31, 2) && s.rx != []
    ensures var t := Step(s, p);
            && t.rx == s.rx[1..] && t.tx == s.tx && t.flash == s.flash && !t.halted
            && (Value(s.rx[0]) % 4 == 3 ==> Inside(t, 0x31, 3) && t.writeLen == Value(s.rx[0]) + 1)
            && (Value(s.rx[0]) % 4 != 3 ==> t.iapTick == 0)
  {
  }

  /**
   * Data is acknowledged exactly when length byte, data and check byte XOR to zero and the flash
   * took all of it; a wrong check byte leaves the flash alone.
   */
  lemma DataAnswer(s: Boot, p: Poll)
    requires Sound(s) && !s.halted && Inside(s, 0x31, 3) && |s.rx| > s.writeLen
    ensures var t := Step(s, p); var n := s.writeLen; var block := [ByteOf(n - 1)] + s.rx[..n] + [s.rx[n]];
            && t.rx == s.rx[n + 1..] && t.iapTick == 0 && !t.halted
            && t.flash == (if Xor(block) == 0 then Written(s.flash, s.writeAddr, s.rx[..n]) else s.flash)
            && t.tx == s.tx + if Xor(block) == 0 && Reported(s.writeAddr, n) then [[0x79]] else [[0x1F]]
  {
    DataDone(s, p);
    if DataMatches(s) {
      DataRight(s);
    } else {
      DataWrong(s);
    }
  }

  lemma DataDone(s: Boot, p: Poll)
    requires Sound(s) && !s.halted && Inside(s, 0x31, 3) && |s.rx| > s.writeLen
    ensures Step(s, p) == Settle(Bootloader.WriteData(s))
  {
  }

  lemma DataRight(s: Boot)
    requires Sound(s) && s.iapTick == 1 && 0 < s.writeLen <= 256 && |s.rx| > s.writeLen && DataMatches(s)
    ensures var t := Settle(Bootloader.WriteData(s)); var n := s.writeLen;
            && Xor([ByteOf(n - 1)] + s.rx[..n] + [s.rx[n]]) == 0
            && t.rx == s.rx[n + 1..] && t.iapTick == 0 && t.halted == s.halted
            && t.flash == Written(s.flash, s.writeAddr, s.rx[..n])
            && t.tx == s.tx + if Reported(s.writeAddr, n) then [[0x79]] else [[0x1F]]
  {
    BlockCheck(ByteOf(s.writeLen - 1), s.rx[..s.writeLen], s.rx[s.writeLen]);
    DataTaken(s);
    DataStored(s);
    DataTold(s);
  }

  lemma DataWrong(s: Boot)
    requires Sound(s) && s.iapTick == 1 && 0 < s.writeLen <= 256 && |s.rx| > s.writeLen && !DataMatches(s)
    ensures var t := Settle(Bootloader.WriteData(s)); var n := s.writeLen;
            && Xor([ByteOf(n - 1)] + s.rx[..n] + [s.rx[n]]) != 0
            && t.rx == s.rx[n + 1..] && t.iapTick == 0 && t.halted == s.halted
            && t.flash == s.flash && t.tx == s.tx + [[0x1F]]
  {
    BlockCheck(ByteOf(s.writeLen - 1), s.rx[..s.writeLen], s.rx[s.writeLen]);
    DataTaken(s);
    DataRejected(s);
    DataDenied(s);
  }

  lemma DataTold(s: Boot)
    requires Sound(s) && 0 < s.writeLen <= 256 && |s.rx| > s.writeLen && DataMatches(s)
    ensures var t := Settle(Bootloader.WriteData(s));
            t.tx == s.tx + (if Reported(s.writeAddr, s.writeLen) then [[0x79]] else [[0x1F]]) && t.halted == s.halted
  {
  }

  lemma DataDenied(s: Boot)
    requires Sound(s) && 0 < s.writeLen <= 256 && |s.rx| > s.writeLen && !DataMatches(s)
    ensures Settle(Bootloader.WriteData(s)).tx == s.tx + [[0x1F]] && Settle(Bootloader.WriteData(s)).halted == s.halted
  {
  }

  // ---------------------------------------------------------------- leaving for the program

  lemma HaltedStays(s: Boot, ps: seq<Poll>)
    requires Sound(s) && s.halted
    ensures Polled(s, ps) == s
    decreases |ps|
  {
    if ps != [] {
      HaltedStays(s, ps[..|ps| - 1]);
    }
  }

  lemma {:induction false} PolledConcat(s: Boot, ps: seq<Poll>, qs: seq<Poll>)
    requires Sound(s)
    ensures Polled(s, ps + qs) == Polled(Polled(s, ps), qs)
    decreases |qs|
  {
    if qs == [] {
      assert ps + qs == ps;
    } else {
      PolledConcat(s, ps, qs[..|qs| - 1]);
      assert (ps + qs)[..|ps + qs| - 1] == ps + qs[..|qs| - 1];
    }
  }

  lemma PolledFirst(s: Boot, ps: seq<Poll>)
    requires Sound(s) && ps != []
    ensures Sound(Step(s, ps[0])) && Polled(s, ps) == Polled(Step(s, ps[0]), ps[1..])
  {
    StepSound(s, ps[0]);
    PolledConcat(s, [ps[0]], ps[1..]);
    assert [ps[0]][..0] == [];
    assert Polled(s, [ps[0]]) == Step(s, ps[0]);
    assert [ps[0]] + ps[1..] == ps;
  }

  /** A Go command in the queue of a waiting device: two polls later it is acknowledged. */
  lemma GoAccepted(s: Boot, p: Poll, q: Poll)
    requires Sound(s) && !s.halted && s.iapTick == 0 && |s.rx| >= 2 && s.rx[0] == 0x21 && s.rx[1] == 0xDE
    ensures var t := Step(s, p);
            && Sound(t) && Sound(Step(t, q))
            && Inside(Step(t, q), 0x21, 1) && Step(t, q).rx == s.rx[2..] && !Step(t, q).halted
            && Step(t, q).tx == s.tx + [[0x79]] && Step(t, q).flash == s.flash
  {
    var b, c: bv8 := 0x21, 0xDE;
    assert b ^ c == 0xFF;
    PairAnswer(s, p);
    StepSound(s, p);
    CommandAnswer(Step(s, p), q);
    StepSound(Step(s, p), q);
  }

  /**
   * Every Go frame that an idle device receives whole is acknowledged twice and leaves the
   * bootloader, under any schedule of at least three polls; with a wrong check byte only the
   * command is acknowledged and the bootloader stays.
   */
  lemma GoLeaves(s: Boot, raw: seq<bv8>, ps: seq<Poll>)
    requires Sound(s) && !s.halted && Rests(s, AtIdle) && s.tx == [] && |ps| == 3
    requires |raw| == 7 && raw[0] == 0x21 && raw[1] == 0xDE
    ensures Sound(Receive(s, raw))
    ensures var t := Polled(Receive(s, raw), ps);
            && (t.halted <==> Xor(raw[2..7]) == 0)
            && t.tx == (if Xor(raw[2..7]) == 0 then [[0x79], [0x79]] else [[0x79]])
            && t.iapTick == 0 && t.rx == [] && t.flash == s.flash
  {
    var r := Receive(s, raw);
    ReceiveSound(s, raw);
    assert r.rx == raw;
    ThreePolls(r, ps);
    GoQueued(r, ps[0], ps[1], ps[2]);
  }

  lemma GoQueued(s: Boot, p: Poll, q: Poll, r: Poll)
    requires Sound(s) && !s.halted && s.iapTick == 0 && s.tx == []
    requires |s.rx| == 7 && s.rx[0] == 0x21 && s.rx[1] == 0xDE
    requires Sound(Step(s, p)) && Sound(Step(Step(s, p), q))
    ensures var t := Step(Step(Step(s, p), q), r);
            && (t.halted <==> Xor(s.rx[2..7]) == 0)
            && t.tx == (if Xor(s.rx[2..7]) == 0 then [[0x79], [0x79]] else [[0x79]])
            && t.iapTick == 0 && t.rx == [] && t.flash == s.flash
  {
    GoAccepted(s, p, q);
    GoAddressAnswer(Step(Step(s, p), q), r);
    assert s.rx[2..][..5] == s.rx[2..7];
  }

  lemma ThreePolls(s: Boot, ps: seq<Poll>)
    requires Sound(s) && |ps| == 3
    ensures Sound(Step(s, ps[0])) && Sound(Step(Step(s, ps[0]), ps[1]))
    ensures Polled(s, ps) == Step(Step(Step(s, ps[0]), ps[1]), ps[2])
  {
    PolledFirst(s, ps);
    PolledFirst(Step(s, ps[0]), ps[1..]);
    PolledFirst(Step(Step(s, ps[0]), ps[1]), ps[2..]);
    assert ps[1..][0] == ps[1] && ps[1..][1..] == ps[2..] && ps[2..][0] == ps[2] && ps[2..][1..] == [];
  }

  /** Further polls change nothing once the bootloader is left. */
  lemma GoLeavesForGood(s: Boot, raw: seq<bv8>, ps: seq<Poll>, more: seq<Poll>)
    requires Sound(s) && !s.halted && Rests(s, AtIdle) && s.tx == [] && |ps| == 3 && GoFrame(raw)
    ensures Sound(Receive(s, raw))
    ensures var t := Polled(Receive(s, raw), ps + more); t.halted && t.tx == [[0x79], [0x79]] && t.flash == s.flash
  {
    GoLeaves(s, raw, ps);
    PolledConcat(Receive(s, raw), ps, more);
    HaltedStays(Polled(Receive(s, raw), ps), more);
  }

  lemma WaitsInGo(s: Boot, ps: seq<Poll>)
    requires Sound(s) && !s.halted && Inside(s, 0x21, 1) && s.rx == [] && AllSteady(ps)
    ensures Polled(s, ps) == s
  {
    Undisturbed(s, ps);
  }

  /**
   * The two messages of the host's jump: command and complement, then, after any steady polls,
   * four address bytes and their check byte. The device leaves exactly when the five XOR to zero.
   */
  lemma GoInTwoMessages(s: Boot, address: seq<bv8>, p: Poll, q: Poll, waits: seq<Poll>, r: Poll)
    requires Sound(s) && !s.halted && Rests(s, AtIdle) && s.tx == [] && |address| == 5 && AllSteady(waits)
    ensures Sound(Receive(s, [0x21, 0xDE]))
    ensures var t := Polled(Receive(s, [0x21, 0xDE]), [p, q] + waits);
            && Inside(t, 0x21, 1) && t.tx == [[0x79]] && Sound(Receive(t, address))
            && var u := Step(Receive(t, address), r);
               && (u.halted <==> Xor(address) == 0)
               && u.tx == (if Xor(address) == 0 then [[0x79], [0x79]] else [[0x79]])
               && u.flash == s.flash
  {
    var c := Receive(s, [0x21, 0xDE]);
    ReceiveSound(s, [0x21, 0xDE]);
    assert c.rx == [0x21, 0xDE];
    GoAccepted(c, p, q);
    var t := Step(Step(c, p), q);
    TwoPolls(c, p, q);
    PolledConcat(c, [p, q], waits);
    WaitsInGo(t, waits);
    ReceiveSound(t, address);
    assert Receive(t, address).rx == address && address[..5] == address;
    GoAddressAnswer(Receive(t, address), r);
  }

  lemma TwoPolls(s: Boot, p: Poll, q: Poll)
    requires Sound(s)
    ensures Sound(Step(s, p)) && Polled(s, [p, q]) == Step(Step(s, p), q)
  {
    PolledFirst(s, [p, q]);
    PolledFirst(Step(s, p), [q]);
    assert [p, q][1..] == [q] && [q][1..] == [];
  }
}
