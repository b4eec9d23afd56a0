/**
 * Runs of the bootloader over any received bytes: it never stalls on bytes it waits for, and
 * the flash is only ever changed by complete write frames whose two check bytes both matched.
 */
module Frames {
  import opened Flash
  import opened Octets
  import opened Bootloader

  // ---------------------------------------------------------------- progress

  /** Every byte count the machine waits for can be met by the receive queue. */
  lemma AwaitedFits(s: Boot)
    requires Sound(s)
    ensures Awaited(s) <= 257 < 299
  {
  }

  /** Inside a command but before its first answer. */
  ghost predicate Unanswered(s: Boot) {
    s.iapTick == 1 && s.exeTick == 0
  }

  /** Without enough bytes, and without a broken flow, a step changes nothing. */
  lemma StepWaits(s: Boot, p: Poll)
    requires Sound(s) && !s.halted
    requires |s.rx| < Awaited(s) && !Broken(s, p)
    ensures Step(s, p) == s
  {
  }

  ghost predicate Moves(s: Boot, t: Boot) {
    |t.rx| < |s.rx| || (t.rx == s.rx && Unanswered(s) && !Unanswered(t))
  }

  lemma AnswerMoves(s: Boot, p: Poll)
    requires Sound(s) && !s.halted && Unanswered(s)
    ensures Moves(s, Step(s, p))
  {
  }

  lemma ReadMoves(s: Boot, p: Poll)
    requires Sound(s) && s.iapTick == 1 && s.exeTick > 0 && s.blCmd == CMD_READ
    requires s.rx != [] && (|s.rx| >= Awaited(s) || p.late)
    ensures |ReadMemory(s, p).0.rx| < |s.rx|
  {
  }

  lemma AddressMoves(s: Boot)
    requires |s.rx| >= 5
    ensures |WriteAddress(s).0.rx| < |s.rx|
  {
  }

  lemma WriteMoves(s: Boot, p: Poll)
    requires Sound(s) && s.iapTick == 1 && s.exeTick > 0 && s.blCmd == CMD_WRITE
    requires s.rx != [] && (|s.rx| >= Awaited(s) || p.late)
    ensures |WriteMemory(s, p).0.rx| < |s.rx|
  {
    if s.exeTick == 1 && |s.rx| >= 5 {
      AddressMoves(s);
    }
  }

  /** The device gives a command up and waits for the next one. */
  ghost function Dropped(s: Boot): Boot {
    s.(iapTick := 0, exeTick := 0)
  }

  /**
   * An empty queue that does not look empty: when the timer runs out, a command that waits is
   * dropped, but for a write that waits for its length.
   */
  lemma DropsUnseen(s: Boot, p: Poll)
    requires Sound(s) && !s.halted && s.rx == [] && !Unanswered(s)
    ensures Step(s, p) == if p.late && p.unseen && s.iapTick == 1 && !(s.blCmd == 0x31 && s.exeTick == 2)
                          then Dropped(s) else s
  {
  }

  /** When the timer runs out on too few bytes, they are dropped, and with them the command that waits for more. */
  lemma BreakDrops(s: Boot, p: Poll)
    requires Sound(s) && !s.halted && 0 < |s.rx| < Awaited(s) && p.late
    ensures Step(s, p) == s.(rx := [], iapTick := 0, exeTick := 0)
  {
  }

  /**
   * With the bytes it waits for, or a broken flow, a step uses bytes up or answers the command;
   * or there were no bytes, and a command waiting for some was dropped.
   */
  lemma StepMoves(s: Boot, p: Poll)
    requires Sound(s) && !s.halted
    requires |s.rx| >= Awaited(s) || Broken(s, p)
    ensures Moves(s, Step(s, p)) || (s.rx == [] && p.unseen && (Step(s, p) == s || Step(s, p) == Dropped(s)))
    ensures s.rx != [] || Unanswered(s) ==> Moves(s, Step(s, p))
  {
    if Unanswered(s) {
      AnswerMoves(s, p);
    } else if s.rx == [] {
      DropsUnseen(s, p);
    } else if s.iapTick == 1 && s.blCmd == CMD_READ {
      ReadMoves(s, p);
    } else if s.iapTick == 1 && s.blCmd == CMD_WRITE {
      WriteMoves(s, p);
    }
  }

  // ---------------------------------------------------------------- what changes the flash

  datatype Event = Datagram(bytes: seq<bv8>) | Tick(poll: Poll)

  /**
   * A run with its history: `pend` holds the bytes taken from the queue since the current
   * command began, `done` the bytes of each command that changed the flash, and `exit` those of
   * the command that left the bootloader.
   */
  datatype Trace = Trace(boot: Boot, pend: seq<bv8>, done: seq<seq<bv8>>, exit: seq<bv8>)

  /** The bytes a step took from the front of the queue. */
  ghost function Taken(s: Boot, t: Boot): seq<bv8> {
    if |t.rx| <= |s.rx| then s.rx[..|s.rx| - |t.rx|] else []
  }

  ghost function Advance(t: Trace, e: Event): Trace
    requires Sound(t.boot)
  {
    match e
    case Datagram(bytes) => t.(boot := Receive(t.boot, bytes))
    case Tick(p) =>
      var u := Step(t.boot, p);
      var all := t.pend + Taken(t.boot, u);
      Trace(u, if u.iapTick == 0 then [] else all,
            if u.flash == t.boot.flash then t.done else t.done + [all],
            if u.halted && !t.boot.halted then all else t.exit)
  }

  /** An address with its check byte, and a length with data and check byte, each XOR to zero. */
  ghost predicate Checked(raw: seq<bv8>) {
    && |raw| >= 10
    && raw[0] == CMD_WRITE && raw[1] == 0xCE
    && Xor(raw[2..7]) == 0
    && Value(raw[7]) + 10 == |raw|
    && (|raw| - 9) % 4 == 0
    && Xor(raw[7..]) == 0
  }

  /** The Go command with its complement, and an address that XORs to zero with its check byte. */
  ghost predicate GoFrame(raw: seq<bv8>) {
    |raw| == 7 && raw[0] == 0x21 && raw[1] == 0xDE && Xor(raw[2..7]) == 0
  }

  /** What a checked write frame does to the flash. */
  ghost function Programs(f: Nor, raw: seq<bv8>): (r: Nor)
    requires Valid(f) && Checked(raw)
    ensures Valid(r)
  {
    Written(f, WordOf(raw[2..6]), raw[8..|raw| - 1])
  }

  ghost function Replay(f: Nor, done: seq<seq<bv8>>): (r: Nor)
    requires Valid(f) && forall k :: 0 <= k < |done| ==> Checked(done[k])
    ensures Valid(r)
  {
    if done == [] then f else Programs(Replay(f, done[..|done| - 1]), done[|done| - 1])
  }

  /** The statics agree with the bytes taken so far. */
  ghost predicate Follows(s: Boot, pend: seq<bv8>) {
    && (s.iapTick == 0 ==> pend == [])
    && (s.iapTick == 1 ==> |pend| >= 2 && pend[0] == s.blCmd && pend[0] ^ pend[1] == 0xFF)
    && (s.iapTick == 1 && s.blCmd == CMD_WRITE ==>
          && |pend| == (if s.exeTick <= 1 then 2 else if s.exeTick == 2 then 7 else 8)
          && (s.exeTick >= 2 ==> Xor(pend[2..7]) == 0 && s.writeAddr == WordOf(pend[2..6]))
          && (s.exeTick == 3 ==> Value(pend[7]) + 1 == s.writeLen))
    && (s.iapTick == 1 && s.blCmd == CMD_GO ==> |pend| == 2)
  }

  /** What one step owes the history: the statics still agree, and a changed flash came from a checked frame. */
  ghost predicate Owed(s: Boot, t: Boot, pend: seq<bv8>)
    requires Valid(s.flash)
  {
    var all := pend + Taken(s, t);
    && Follows(t, if t.iapTick == 0 then [] else all)
    && (t.flash != s.flash ==> Checked(all) && t.flash == Programs(s.flash, all))
    && (t.halted && !s.halted ==> GoFrame(all))
  }

  lemma StillOwes(s: Boot, pend: seq<bv8>)
    requires Sound(s) && Follows(s, pend)
    ensures Owed(s, s, pend)
  {
    assert pend + s.rx[..0] == pend;
  }

  lemma Complement(b: bv8, c: bv8)
    ensures b == CMD_WRITE && b ^ c == 0xFF ==> c == 0xCE
  {
  }

  lemma AwaitOwes(s: Boot, p: Poll, pend: seq<bv8>)
    requires Sound(s) && s.iapTick == 0 && Follows(s, pend)
    ensures Owed(s, Await(s, p), pend)
  {
  }

  lemma AddressOwes(s: Boot, pend: seq<bv8>)
    requires Sound(s) && Follows(s, pend)
    requires s.iapTick == 1 && s.blCmd == CMD_WRITE && s.exeTick == 1 && |s.rx| >= 5
    ensures Owed(s, Settle(WriteAddress(s)), pend)
  {
    var word, c := s.rx[..4], s.rx[4];
    var all := pend + s.rx[..5];
    StaleBitsLeave(0, word);
    XorOrder(WordOf(word));
    WordBytes(word);
    CheckByte(word, c);
    assert all[2..6] == word && all[2..7] == word + [c];
  }

  lemma AddressStays(pend: seq<bv8>, more: seq<bv8>)
    requires |pend| >= 7
    ensures (pend + more)[2..6] == pend[2..6] && (pend + more)[2..7] == pend[2..7]
  {
  }

  lemma LengthOwes(s: Boot, pend: seq<bv8>)
    requires Sound(s) && Follows(s, pend)
    requires s.iapTick == 1 && s.blCmd == CMD_WRITE && s.exeTick == 2 && s.rx != []
    ensures Owed(s, Settle(WriteLength(s)), pend)
  {
    AddressStays(pend, s.rx[..1]);
  }

  lemma LengthByte(b: bv8, n: nat)
    requires 0 < n <= 256 && Value(b) == n - 1
    ensures ByteOf(n - 1) == b
  {
    Same(ByteOf(n - 1), b);
  }

  /** The check over data and length is the XOR of the whole block. */
  lemma BlockCheck(b: bv8, data: seq<bv8>, c: bv8)
    ensures Xor([b] + data + [c]) == 0 <==> c == Xor(data) ^ b
  {
    XorConcat([b], data);
    XorOne(b);
    CheckByte([b] + data, c);
  }

  lemma DataSlices(pend: seq<bv8>, data: seq<bv8>, c: bv8)
    requires |pend| == 8
    ensures
      var all := pend + (data + [c]);
      && all[0] == pend[0] && all[1] == pend[1] && all[7] == pend[7]
      && all[2..7] == pend[2..7] && all[2..6] == pend[2..6]
      && all[7..] == [pend[7]] + data + [c]
      && all[8..|all| - 1] == data
  {
  }

  lemma DataShape(pend: seq<bv8>, data: seq<bv8>, c: bv8)
    requires |pend| == 8 && pend[0] == CMD_WRITE && pend[0] ^ pend[1] == 0xFF && Xor(pend[2..7]) == 0
    requires 0 < |data| <= 256 && |data| % 4 == 0 && Value(pend[7]) + 1 == |data|
    requires c == Xor(data) ^ ByteOf(|data| - 1)
    ensures Checked(pend + (data + [c]))
  {
    LengthByte(pend[7], |data|);
    DataSlices(pend, data, c);
    Complement(pend[0], pend[1]);
    BlockCheck(pend[7], data, c);
  }

  ghost predicate DataMatches(s: Boot)
    requires 0 < s.writeLen <= 256 && |s.rx| > s.writeLen
  {
    s.rx[s.writeLen] == Xor(s.rx[..s.writeLen]) ^ ByteOf(s.writeLen - 1)
  }

  lemma DataTaken(s: Boot)
    requires Sound(s) && s.iapTick == 1 && 0 < s.writeLen <= 256 && |s.rx| > s.writeLen
    ensures var t := Settle(WriteData(s)); t.iapTick == 0 && t.rx == s.rx[s.writeLen + 1..]
    ensures Taken(s, Settle(WriteData(s))) == s.rx[..s.writeLen] + [s.rx[s.writeLen]]
  {
  }

  lemma DataRejected(s: Boot)
    requires Sound(s) && 0 < s.writeLen <= 256 && |s.rx| > s.writeLen && !DataMatches(s)
    ensures Settle(WriteData(s)).flash == s.flash
  {
  }

  lemma DataStored(s: Boot)
    requires Sound(s) && 0 < s.writeLen <= 256 && |s.rx| > s.writeLen && DataMatches(s)
    ensures Settle(WriteData(s)).flash == Written(s.flash, s.writeAddr, s.rx[..s.writeLen])
  {
  }

  lemma FrameChecked(s: Boot, pend: seq<bv8>)
    requires Sound(s) && Follows(s, pend)
    requires s.iapTick == 1 && s.blCmd == CMD_WRITE && s.exeTick == 3 && |s.rx| > s.writeLen && DataMatches(s)
    ensures Checked(pend + (s.rx[..s.writeLen] + [s.rx[s.writeLen]]))
  {
    var data, c := s.rx[..s.writeLen], s.rx[s.writeLen];
    assert |data| == s.writeLen;
    DataShape(pend, data, c);
  }

  lemma FrameProgram(f: Nor, addr: nat, pend: seq<bv8>, data: seq<bv8>, c: bv8)
    requires Valid(f) && |pend| == 8 && addr == WordOf(pend[2..6]) && Checked(pend + (data + [c]))
    ensures Programs(f, pend + (data + [c])) == Written(f, addr, data)
  {
    DataSlices(pend, data, c);
  }

  lemma DataOwes(s: Boot, pend: seq<bv8>)
    requires Sound(s) && Follows(s, pend)
    requires s.iapTick == 1 && s.blCmd == CMD_WRITE && s.exeTick == 3 && |s.rx| > s.writeLen
    ensures Owed(s, Settle(WriteData(s)), pend)
  {
    DataTaken(s);
    if DataMatches(s) {
      DataStored(s);
      FrameChecked(s, pend);
      FrameProgram(s.flash, s.writeAddr, pend, s.rx[..s.writeLen], s.rx[s.writeLen]);
    } else {
      DataRejected(s);
    }
  }

  lemma WriteOwes(s: Boot, p: Poll, pend: seq<bv8>)
    requires Sound(s) && s.iapTick == 1 && s.blCmd == CMD_WRITE && Follows(s, pend)
    ensures Owed(s, Settle(WriteMemory(s, p)), pend)
  {
    if s.exeTick == 1 && |s.rx| >= 5 {
      AddressOwes(s, pend);
    } else if s.exeTick == 2 && s.rx != [] {
      LengthOwes(s, pend);
    } else if s.exeTick == 3 && |s.rx| > s.writeLen {
      DataOwes(s, pend);
    } else {
      StillOwes(s, pend);
      assert pend + s.rx[..0] == pend;
    }
  }

  lemma GoComplement(b: bv8, c: bv8)
    ensures b == 0x21 && b ^ c == 0xFF ==> c == 0xDE
  {
  }

  lemma GoAddressOwes(s: Boot, pend: seq<bv8>)
    requires Sound(s) && Follows(s, pend)
    requires s.iapTick == 1 && s.blCmd == CMD_GO && |s.rx| >= 5
    ensures Owed(s, Settle(GoAddress(s)), pend)
  {
    var word, c := s.rx[..4], s.rx[4];
    var all := pend + s.rx[..5];
    GoComplement(pend[0], pend[1]);
    StaleBitsLeave(0, word);
    XorOrder(WordOf(word));
    WordBytes(word);
    CheckByte(word, c);
    assert all[2..7] == word + [c];
  }

  lemma GoOwes(s: Boot, p: Poll, pend: seq<bv8>)
    requires Sound(s) && s.iapTick == 1 && s.blCmd == CMD_GO && Follows(s, pend)
    ensures Owed(s, Settle(Go(s, p)), pend)
  {
    if s.exeTick == 1 && |s.rx| >= 5 {
      GoAddressOwes(s, pend);
    } else {
      StillOwes(s, pend);
      assert pend + s.rx[..0] == pend;
    }
  }

  lemma OtherOwes(s: Boot, p: Poll, pend: seq<bv8>)
    requires Sound(s) && s.iapTick == 1 && s.blCmd != CMD_WRITE && s.blCmd != CMD_GO && Follows(s, pend)
    ensures Owed(s, Settle(Execute(s, p)), pend)
  {
  }

  lemma StepOwes(s: Boot, p: Poll, pend: seq<bv8>)
    requires Sound(s) && Follows(s, pend)
    ensures Owed(s, Step(s, p), pend)
  {
    if s.halted {
      StillOwes(s, pend);
    } else if s.iapTick == 0 {
      AwaitOwes(s, p, pend);
    } else if s.blCmd == CMD_WRITE {
      WriteOwes(s, p, pend);
    } else if s.blCmd == CMD_GO {
      GoOwes(s, p, pend);
    } else {
      OtherOwes(s, p, pend);
    }
  }

  /** The invariant of a run that started with the flash `f`. */
  ghost predicate Justified(f: Nor, t: Trace)
    requires Valid(f)
  {
    && Sound(t.boot)
    && Follows(t.boot, t.pend)
    && (forall k :: 0 <= k < |t.done| ==> Checked(t.done[k]))
    && t.boot.flash == Replay(f, t.done)
    && (t.boot.halted ==> GoFrame(t.exit))
  }

  lemma TickJustified(f: Nor, t: Trace, p: Poll)
    requires Valid(f) && Justified(f, t)
    ensures Justified(f, Advance(t, Tick(p)))
  {
    var u := Step(t.boot, p);
    StepSound(t.boot, p);
    StepOwes(t.boot, p, t.pend);
    var all := t.pend + Taken(t.boot, u);
    if u.flash != t.boot.flash {
      ReplayMore(f, t.done, all);
    }
  }

  lemma ReplayMore(f: Nor, done: seq<seq<bv8>>, raw: seq<bv8>)
    requires Valid(f) && Checked(raw) && forall k :: 0 <= k < |done| ==> Checked(done[k])
    ensures Replay(f, done + [raw]) == Programs(Replay(f, done), raw)
  {
    assert (done + [raw])[..|done|] == done;
  }

  ghost function Run(t: Trace, events: seq<Event>): Trace
    requires Sound(t.boot)
    decreases |events|
  {
    if events == [] then t
    else
      var u := Run(t, events[..|events| - 1]);
      if Sound(u.boot) then Advance(u, events[|events| - 1]) else u
  }

  /**
   * For every sequence of datagrams and polls, the flash is what the recorded frames alone make
   * of it, each of them complete and with both check bytes right, and a bootloader that was left
   * was left by a Go frame.
   */
  lemma {:induction false} OnlyCheckedFrames(f: Nor, t: Trace, events: seq<Event>)
    requires Valid(f) && Justified(f, t)
    ensures Justified(f, Run(t, events))
    decreases |events|
  {
    if events != [] {
      OnlyCheckedFrames(f, t, events[..|events| - 1]);
      match events[|events| - 1]
      case Datagram(bytes) =>
      case Tick(p) =>
        TickJustified(f, Run(t, events[..|events| - 1]), p);
    }
  }

  /**
   * The same from a bootloader waiting for a command, with no history to assume. And in every
   * such run the bootloader is left only by a Go command with its complement and an address whose
   * check byte is right.
   */
  lemma OnlyCheckedFromIdle(s: Boot, events: seq<Event>)
    requires Sound(s) && s.iapTick == 0 && !s.halted
    ensures var t := Run(Trace(s, [], [], []), events);
            && (forall k :: 0 <= k < |t.done| ==> Checked(t.done[k]))
            && t.boot.flash == Replay(s.flash, t.done)
            && (t.boot.halted ==>
                  |t.exit| == 7 && t.exit[0] == 0x21 && t.exit[1] == 0xDE && Xor(t.exit[2..7]) == 0)
  {
    OnlyCheckedFrames(s.flash, Trace(s, [], [], []), events);
  }
}
