/**
 * One message from the loading host and the bootloader's reaction to it, for every schedule of
 * polls. A message may meet the device where the host believes it to be, or in a step left over
 * from an exchange whose answer was lost.
 */
module Exchange {
  import opened Flash
  import opened Octets
  import opened Bootloader
  import opened Frames

  const WRITE_COMMAND: seq<bv8> := [0x31, 0xCE]
  const READ_COMMAND: seq<bv8> := [0x11, 0xEE]

  /** The commands the host's loops send. */
  ghost predicate Known(cmd: bv8) {
    cmd == CMD_WRITE || cmd == CMD_READ
  }

  function CommandFrame(cmd: bv8): (s: seq<bv8>)
    ensures |s| == 2
  {
    if cmd == CMD_WRITE then WRITE_COMMAND else READ_COMMAND
  }

  ghost function AddressFrame(addr: int): (s: seq<bv8>)
    ensures |s| == 5
  {
    BigEndian(addr) + [Xor(BigEndian(addr))]
  }

  ghost function DataFrame(data: seq<bv8>): (s: seq<bv8>)
    requires 0 < |data| <= 256
    ensures |s| == |data| + 2
  {
    [ByteOf(|data| - 1)] + data + [Xor([ByteOf(|data| - 1)] + data)]
  }

  // ---------------------------------------------------------------- where the device can rest

  datatype Rest = AtIdle | AtWriteAddress | AtWriteData | AtReadAddress | AtReadLength

  /** The device is in step `tick` of a command. */
  ghost predicate Inside(s: Boot, cmd: bv8, tick: nat) {
    s.iapTick == 1 && s.blCmd == cmd && s.exeTick == tick
  }

  ghost predicate Rests(s: Boot, at: Rest) {
    && s.rx == []
    && match at
       case AtIdle => s.iapTick == 0 && s.exeTick == 0
       case AtWriteAddress => Inside(s, CMD_WRITE, 1)
       case AtWriteData => Inside(s, CMD_WRITE, 2)
       case AtReadAddress => Inside(s, CMD_READ, 1)
       case AtReadLength => Inside(s, CMD_READ, 2)
  }

  ghost function AfterCommand(cmd: bv8): Rest {
    if cmd == CMD_WRITE then AtWriteAddress else AtReadAddress
  }

  ghost function AfterAddress(cmd: bv8): Rest {
    if cmd == CMD_WRITE then AtWriteData else AtReadLength
  }

  /** Nothing left to do: no byte unread and no command unanswered. */
  ghost predicate Quiet(s: Boot) {
    s.rx == [] && !Unanswered(s)
  }

  /** An exchange is over when the device has answered or has nothing left to do. */
  ghost predicate Paused(s: Boot) {
    s.tx != [] || Quiet(s)
  }

  /** A run of polls. */
  ghost function Polled(s: Boot, ps: seq<Poll>): (t: Boot)
    requires Sound(s)
    ensures Sound(t)
    decreases |ps|
  {
    if ps == [] then s
    else
      var t := Polled(s, ps[..|ps| - 1]);
      StepSound(t, ps[|ps| - 1]);
      Step(t, ps[|ps| - 1])
  }

  // ---------------------------------------------------------------- the exchanges

  /** The message sent, and where it finds the device. */
  datatype Phase =
    | Command(cmd: bv8, at: Rest)
    | Address(cmd: bv8, addr: nat)
    | Data(addr: nat, data: seq<bv8>)
    | Length(addr: nat, n: nat)

  ghost predicate Sendable(addr: nat, data: seq<bv8>) {
    addr < WORD && 0 < |data| && Reported(addr, |data|)
  }

  ghost predicate Readable(addr: nat, n: nat) {
    0 < n <= 256 && FLASH_BASE <= addr && addr + n <= FLASH_BASE + FLASH_SIZE
  }

  ghost predicate SendablePhase(ph: Phase) {
    match ph
    case Command(cmd, at) => Known(cmd)
    case Address(cmd, addr) => Known(cmd) && addr < WORD
    case Data(addr, data) => Sendable(addr, data)
    case Length(addr, n) => Readable(addr, n)
  }

  ghost function LengthFrame(n: nat): seq<bv8>
    requires 0 < n <= 256
  {
    [ByteOf(n - 1), ByteOf(n - 1)]
  }

  ghost function Message(ph: Phase): seq<bv8>
    requires SendablePhase(ph)
  {
    match ph
    case Command(cmd, at) => CommandFrame(cmd)
    case Address(cmd, addr) => AddressFrame(addr)
    case Data(addr, data) => DataFrame(data)
    case Length(addr, n) => LengthFrame(n)
  }

  /** The device just before the message arrives. */
  ghost predicate Before(ph: Phase, s: Boot) {
    match ph
    case Command(cmd, at) => Rests(s, at)
    case Address(cmd, addr) => Rests(s, AfterCommand(cmd))
    case Data(addr, data) => Rests(s, AtWriteData) && s.writeAddr == addr
    case Length(addr, n) => Rests(s, AtReadLength) && s.readAddr == addr
  }

  ghost function Cells(f: Nor, addr: nat, n: nat): (s: seq<bv8>)
    requires Valid(f) && FLASH_BASE <= addr && addr + n <= FLASH_BASE + FLASH_SIZE
  {
    f.cell[addr - FLASH_BASE..addr - FLASH_BASE + n]
  }

  /** The answer of a device whose flash holds `f`. */
  ghost function AnswerTo(ph: Phase, f: Nor): seq<seq<bv8>>
    requires SendablePhase(ph) && Valid(f)
  {
    match ph
    case Command(cmd, at) => if at == AtIdle then [[ACK]] else []
    case Address(cmd, addr) => [[ACK]]
    case Data(addr, data) => [[ACK]]
    case Length(addr, n) => [[ACK], Cells(f, addr, n), [Xor(Cells(f, addr, n))]]
  }

  /** Where the device is once the exchange is over; `f` is the flash it started with. */
  ghost predicate Arrived(ph: Phase, f: Nor, s: Boot)
    requires SendablePhase(ph) && Valid(f)
  {
    match ph
    case Command(cmd, at) => Rests(s, if at == AtIdle then AfterCommand(cmd) else AtIdle) && s.flash == f
    case Address(cmd, addr) =>
      Rests(s, AfterAddress(cmd)) && s.flash == f && (if cmd == CMD_WRITE then s.writeAddr else s.readAddr) == addr
    case Data(addr, data) => Rests(s, AtIdle) && s.flash == Written(f, addr, data)
    case Length(addr, n) => Rests(s, AtIdle) && s.flash == f
  }

  ghost predicate After(ph: Phase, f: Nor, s: Boot)
    requires SendablePhase(ph) && Valid(f)
  {
    Arrived(ph, f, s) && s.tx == AnswerTo(ph, f)
  }

  /** The states on the way, none of which is a pause. */
  ghost predicate OnTheWay(ph: Phase, s: Boot)
    requires SendablePhase(ph)
  {
    && s.tx == []
    && match ph
       case Command(cmd, at) =>
         (match at
          case AtIdle => (s.iapTick == 0 && s.rx == CommandFrame(cmd)) || (Inside(s, cmd, 0) && s.rx == [])
          case AtWriteAddress => Inside(s, CMD_WRITE, 1) && s.rx == CommandFrame(cmd)
          case AtReadAddress => Inside(s, CMD_READ, 1) && s.rx == CommandFrame(cmd)
          case AtReadLength => Inside(s, CMD_READ, 2) && s.rx == CommandFrame(cmd)
          case AtWriteData => (Inside(s, CMD_WRITE, 2) && s.rx == CommandFrame(cmd))
                              || (s.iapTick == 0 && s.rx == CommandFrame(cmd)[1..]))
       case Address(cmd, addr) => Inside(s, cmd, 1) && s.rx == AddressFrame(addr)
       case Data(addr, data) =>
         && s.writeAddr == addr
         && ((Inside(s, CMD_WRITE, 2) && s.rx == DataFrame(data))
             || (Inside(s, CMD_WRITE, 3) && s.rx == DataFrame(data)[1..] && s.writeLen == |data|))
       case Length(addr, n) => Inside(s, CMD_READ, 2) && s.readAddr == addr && s.rx == LengthFrame(n)
     }

  ghost predicate During(ph: Phase, f: Nor, s: Boot)
    requires SendablePhase(ph) && Valid(f)
  {
    !s.halted && Sound(s) && ((OnTheWay(ph, s) && s.flash == f) || After(ph, f, s))
  }

  /** The poll does not find the timer run out on an empty queue that does not look empty. */
  ghost predicate Steady(p: Poll) {
    !(p.late && p.unseen)
  }

  ghost predicate AllSteady(ps: seq<Poll>) {
    forall k :: 0 <= k < |ps| ==> Steady(ps[k])
  }

  /** A device at rest stays as it is, unless it waits inside a command and the poll is not steady. */
  lemma QuietStays(s: Boot, p: Poll)
    requires Sound(s) && Quiet(s) && !s.halted
    ensures Step(s, p) == s || (!Steady(p) && Step(s, p) == Dropped(s))
  {
    DropsUnseen(s, p);
  }

  lemma AfterQuiet(ph: Phase, f: Nor, s: Boot)
    requires SendablePhase(ph) && Valid(f) && After(ph, f, s)
    ensures Quiet(s)
  {
  }

  lemma CommandStep(s: Boot, p: Poll, cmd: bv8)
    requires Known(cmd) && Sound(s) && !s.halted && OnTheWay(Command(cmd, AtIdle), s)
    ensures During(Command(cmd, AtIdle), s.flash, Step(s, p))
  {
    StepSound(s, p);
  }

  /** A command taken for part of an address: only the break ends the wait. */
  lemma StrayAtAddressStep(s: Boot, p: Poll, cmd: bv8, at: Rest)
    requires at == AtWriteAddress || at == AtReadAddress
    requires Known(cmd) && Sound(s) && !s.halted && OnTheWay(Command(cmd, at), s)
    ensures During(Command(cmd, at), s.flash, Step(s, p))
  {
    StepSound(s, p);
  }

  lemma CommandValues()
    ensures Value(0x31) == 49 && Value(0xCE) == 206 && Value(0x11) == 17 && Value(0xEE) == 238
  {
    ValueIs(0x31);
    ValueIs(0xCE);
    ValueIs(0x11);
    ValueIs(0xEE);
  }

  /** A command taken for a length and its check: they do not match. */
  lemma StrayAtLengthStep(s: Boot, p: Poll, cmd: bv8)
    requires Known(cmd) && Sound(s) && !s.halted && OnTheWay(Command(cmd, AtReadLength), s)
    ensures During(Command(cmd, AtReadLength), s.flash, Step(s, p))
  {
    StepSound(s, p);
    CommandValues();
  }

  /** A command taken for a length: no multiple of four, and its second byte waits for the break. */
  lemma StrayAtDataStep(s: Boot, p: Poll, cmd: bv8)
    requires Known(cmd) && Sound(s) && !s.halted && OnTheWay(Command(cmd, AtWriteData), s)
    ensures During(Command(cmd, AtWriteData), s.flash, Step(s, p))
  {
    StepSound(s, p);
    CommandValues();
  }

  lemma AddressValue(addr: nat, was: nat)
    requires addr < WORD
    ensures ShiftAll(was, AddressFrame(addr)[..4]) == addr
    ensures AddressFrame(addr)[4] == Xor(LittleEndian(addr)) && AddressFrame(addr)[5..] == []
  {
    assert AddressFrame(addr)[..4] == BigEndian(addr) && AddressFrame(addr)[5..] == [];
    StaleBitsLeave(was, BigEndian(addr));
    WordRoundTrip(addr);
    XorOrder(addr);
  }

  lemma AddressStep(s: Boot, p: Poll, cmd: bv8, addr: nat)
    requires Known(cmd) && addr < WORD && Sound(s) && !s.halted && OnTheWay(Address(cmd, addr), s)
    ensures During(Address(cmd, addr), s.flash, Step(s, p))
  {
    StepSound(s, p);
    AddressValue(addr, 0);
    AddressValue(addr, s.readAddr);
  }

  lemma LengthAccepted(s: Boot, data: seq<bv8>)
    requires 0 < |data| <= 256 && |data| % 4 == 0 && s.rx == DataFrame(data)
    ensures Bootloader.WriteLength(s) == (s.(writeLen := |data|, rx := DataFrame(data)[1..], exeTick := 3), Yield)
  {
  }

  lemma DataAccepted(s: Boot, data: seq<bv8>)
    requires Sound(s) && 0 < |data| <= 256
    requires s.rx == DataFrame(data)[1..] && s.writeLen == |data|
    requires Reported(s.writeAddr, |data|)
    ensures Bootloader.WriteData(s) ==
            (Send(s.(flash := Written(s.flash, s.writeAddr, data), rx := [], exeTick := 0), [[ACK]]), Ok)
  {
    var b := ByteOf(|data| - 1);
    BlockCheck(b, data, Xor([b] + data));
    CheckByte([b] + data, Xor([b] + data));
    assert DataFrame(data)[1..] == data + [Xor([b] + data)];
    assert s.rx[..s.writeLen] == data && s.rx[s.writeLen + 1..] == [];
  }

  lemma DataStep(s: Boot, p: Poll, addr: nat, data: seq<bv8>)
    requires Sendable(addr, data) && Sound(s) && !s.halted && OnTheWay(Data(addr, data), s)
    ensures During(Data(addr, data), s.flash, Step(s, p))
  {
    StepSound(s, p);
    if s.exeTick == 2 {
      LengthAccepted(s, data);
    } else {
      DataAccepted(s, data);
    }
  }

  /** What is read from inside the flash does not depend on the rest of the memory. */
  lemma BlockIsCells(f: Nor, bus: nat -> bv8, addr: nat, n: nat)
    requires Valid(f) && Readable(addr, n)
    ensures Block(f, bus, addr, n) == Cells(f, addr, n)
  {
    forall i | 0 <= i < n
      ensures Block(f, bus, addr, n)[i] == Cells(f, addr, n)[i]
    {
      assert (addr + i) % WORD == addr + i;
      assert Peek(f, bus, addr + i) == f.cell[addr - FLASH_BASE + i];
      assert Block(f, bus, addr, n)[i] == Peek(f, bus, (addr + i) % WORD);
    }
  }

  lemma BlockSent(s: Boot, p: Poll, addr: nat, n: nat)
    requires Readable(addr, n) && Sound(s) && s.readAddr == addr && s.rx == LengthFrame(n)
    ensures var b := Cells(s.flash, addr, n);
            ReadBlock(s, p.bus) == (Send(s.(readLen := n, rx := [], exeTick := 0), [[ACK], b, [Xor(b)]]), Ok)
  {
    BlockIsCells(s.flash, p.bus, addr, n);
  }

  lemma LengthStep(s: Boot, p: Poll, addr: nat, n: nat)
    requires Readable(addr, n) && Sound(s) && !s.halted && OnTheWay(Length(addr, n), s)
    ensures During(Length(addr, n), s.flash, Step(s, p))
  {
    StepSound(s, p);
    BlockSent(s, p, addr, n);
  }

  lemma CommandAnyStep(s: Boot, p: Poll, cmd: bv8, at: Rest)
    requires Known(cmd) && Sound(s) && !s.halted && OnTheWay(Command(cmd, at), s)
    ensures During(Command(cmd, at), s.flash, Step(s, p))
  {
    match at
    case AtIdle => CommandStep(s, p, cmd);
    case AtWriteData => StrayAtDataStep(s, p, cmd);
    case AtReadLength => StrayAtLengthStep(s, p, cmd);
    case _ => StrayAtAddressStep(s, p, cmd, at);
  }

  lemma WayStep(ph: Phase, f: Nor, s: Boot, p: Poll)
    requires SendablePhase(ph) && Valid(f) && During(ph, f, s) && !After(ph, f, s)
    ensures Sound(s) && During(ph, f, Step(s, p))
  {
    match ph
    case Command(cmd, at) => CommandAnyStep(s, p, cmd, at);
    case Address(cmd, addr) => AddressStep(s, p, cmd, addr);
    case Data(addr, data) => DataStep(s, p, addr, data);
    case Length(addr, n) => LengthStep(s, p, addr, n);
  }

  /** The exchange is over, and after it the device has dropped the command it was waiting in. */
  ghost predicate Lapsed(ph: Phase, f: Nor, s: Boot)
    requires SendablePhase(ph) && Valid(f)
  {
    exists t :: After(ph, f, t) && Sound(t) && !t.halted && s == Dropped(t)
  }

  ghost predicate Underway(ph: Phase, f: Nor, s: Boot, steady: bool)
    requires SendablePhase(ph) && Valid(f)
  {
    Sound(s) && !s.halted && (During(ph, f, s) || (!steady && Lapsed(ph, f, s)))
  }

  lemma DropSound(s: Boot)
    requires Sound(s)
    ensures Sound(Dropped(s)) && Dropped(Dropped(s)) == Dropped(s)
  {
  }

  lemma UnderwayStep(ph: Phase, f: Nor, s: Boot, p: Poll, steady: bool)
    requires SendablePhase(ph) && Valid(f) && Underway(ph, f, s, steady)
    ensures Sound(s) && Underway(ph, f, Step(s, p), steady && Steady(p))
  {
    StepSound(s, p);
    if During(ph, f, s) && !After(ph, f, s) {
      WayStep(ph, f, s, p);
    } else {
      var t :| After(ph, f, t) && Sound(t) && !t.halted && (s == t || (!steady && s == Dropped(t)));
      AfterQuiet(ph, f, t);
      QuietStays(s, p);
      DropSound(t);
    }
  }

  lemma Arrives(ph: Phase, s: Boot)
    requires SendablePhase(ph) && Sound(s) && !s.halted && Before(ph, s) && s.tx == []
    ensures During(ph, s.flash, Receive(s, Message(ph)))
  {
  }

  lemma {:induction false} UnderwayPolls(ph: Phase, f: Nor, s: Boot, ps: seq<Poll>)
    requires SendablePhase(ph) && Valid(f) && During(ph, f, s)
    ensures Sound(s) && Underway(ph, f, Polled(s, ps), AllSteady(ps))
    decreases |ps|
  {
    if ps != [] {
      var front := ps[..|ps| - 1];
      UnderwayPolls(ph, f, s, front);
      UnderwayStep(ph, f, Polled(s, front), ps[|ps| - 1], AllSteady(front));
    }
  }

  lemma WayNotPaused(ph: Phase, s: Boot)
    requires SendablePhase(ph) && OnTheWay(ph, s)
    ensures !Paused(s)
  {
  }

  /**
   * One exchange, for every schedule of polls up to a pause: the outcome depends only on the
   * message and on the step in which it found the device. Only a poll that is not steady can
   * make the device leave, once it has answered, the step in which it then waits.
   */
  lemma Exchanged(ph: Phase, s: Boot, ps: seq<Poll>)
    requires SendablePhase(ph) && Sound(s) && !s.halted && Before(ph, s) && s.tx == []
    ensures var r := Receive(s, Message(ph));
            && Sound(r) && !Polled(r, ps).halted
            && (Paused(Polled(r, ps)) ==>
                  After(ph, s.flash, Polled(r, ps)) || (!AllSteady(ps) && Lapsed(ph, s.flash, Polled(r, ps))))
  {
    Arrives(ph, s);
    var r := Receive(s, Message(ph));
    UnderwayPolls(ph, s.flash, r, ps);
    if OnTheWay(ph, Polled(r, ps)) {
      WayNotPaused(ph, Polled(r, ps));
    }
  }

  /** A device at rest that receives nothing is found as it was, or it has dropped the command it was in. */
  lemma Undisturbed(s: Boot, ps: seq<Poll>)
    requires Sound(s) && !s.halted && Quiet(s)
    ensures Polled(s, ps) == s || (!AllSteady(ps) && Polled(s, ps) == Dropped(s))
    decreases |ps|
  {
    if ps != [] {
      var front := ps[..|ps| - 1];
      Undisturbed(s, front);
      DropSound(s);
      QuietStays(Polled(s, front), ps[|ps| - 1]);
    }
  }

  // ---------------------------------------------------------------- a tail that is no multiple of four

  /** A data message is taken as data exactly when its length is a multiple of four. */
  lemma DataTakenAsData(s: Boot, data: seq<bv8>, p: Poll)
    requires Sound(s) && !s.halted && Inside(s, CMD_WRITE, 2) && 0 < |data| <= 256 && s.rx == DataFrame(data)
    ensures Inside(Step(s, p), CMD_WRITE, 3) <==> |data| % 4 == 0
    ensures Step(s, p).rx == DataFrame(data)[1..]
  {
  }

  /** The commands whose first answer starts with an acknowledgement; the others send nothing. */
  ghost predicate Replies(cmd: bv8) {
    cmd == 0x01 || cmd == 0x02 || cmd == CMD_READ || cmd == CMD_GO || cmd == CMD_WRITE
  }

  /** Read as commands, these bytes bring an acknowledgement before anything else is sent. */
  ghost predicate Hears(rx: seq<bv8>) {
    |rx| >= 2 && rx[0] ^ rx[1] == 0xFF && (Replies(rx[0]) || Hears(rx[2..]))
  }

  ghost predicate Acknowledged(tx: seq<seq<bv8>>) {
    tx != [] && tx[0] != [] && tx[0][0] == ACK
  }

  /** The device on its way to its first answer, which will be an acknowledgement or not. */
  ghost predicate Heading(s: Boot, ack: bool) {
    if s.tx != [] then ack == Acknowledged(s.tx)
    else
      || (s.iapTick == 0 && ack == Hears(s.rx))
      || (Unanswered(s) && ack == (Replies(s.blCmd) || Hears(s.rx)))
      || (Inside(s, CMD_WRITE, 2) && s.rx != [] && Value(s.rx[0]) % 4 != 3 && ack == Hears(s.rx[1..]))
  }

  /** What was sent stays sent. */
  lemma FirstStays(s: Boot, p: Poll)
    requires Sound(s) && s.tx != []
    ensures Step(s, p).tx != [] && Step(s, p).tx[0] == s.tx[0]
  {
    if s.blCmd == CMD_READ {
      ReadKeepsFirst(s, p);
    } else if s.blCmd == CMD_WRITE {
      WriteKeepsFirst(s, p);
    }
  }

  /** More was sent behind what had been sent. */
  ghost predicate Continues(s: Boot, t: Boot) {
    t.tx != [] && s.tx != [] && t.tx[0] == s.tx[0]
  }

  lemma ReadBlockContinues(s: Boot, bus: nat -> bv8)
    requires s.tx != [] && |s.rx| >= 2 && Valid(s.flash)
    ensures Continues(s, ReadBlock(s, bus).0)
  {
  }

  lemma ReadAddressContinues(s: Boot)
    requires s.tx != [] && |s.rx| >= 5
    ensures Continues(s, Bootloader.ReadAddress(s).0)
  {
  }

  lemma ReadKeepsFirst(s: Boot, p: Poll)
    requires Sound(s) && s.tx != []
    ensures Continues(s, ReadMemory(s, p).0)
  {
    if s.exeTick == 1 && |s.rx| >= 5 {
      ReadAddressContinues(s);
    } else if s.exeTick == 2 && |s.rx| >= 2 {
      ReadBlockContinues(s, p.bus);
    }
  }

  lemma WriteAddressContinues(s: Boot)
    requires s.tx != [] && |s.rx| >= 5
    ensures Continues(s, Bootloader.WriteAddress(s).0)
  {
  }

  lemma WriteDataContinues(s: Boot)
    requires s.tx != [] && Valid(s.flash) && 0 < s.writeLen <= 256 && |s.rx| > s.writeLen
    ensures Continues(s, Bootloader.WriteData(s).0)
  {
  }

  lemma WriteKeepsFirst(s: Boot, p: Poll)
    requires Sound(s) && s.tx != [] && s.blCmd == CMD_WRITE
    ensures Continues(s, WriteMemory(s, p).0)
  {
    if s.exeTick == 1 && |s.rx| >= 5 {
      WriteAddressContinues(s);
    } else if s.exeTick == 3 && |s.rx| > s.writeLen {
      WriteDataContinues(s);
    }
  }

  lemma HeadingAwaits(s: Boot, p: Poll, ack: bool)
    requires Sound(s) && !s.halted && s.tx == [] && s.iapTick == 0 && Heading(s, ack)
    ensures Heading(Step(s, p), ack)
  {
  }

  lemma HeadingAnswers(s: Boot, p: Poll, ack: bool)
    requires Sound(s) && !s.halted && s.tx == [] && Unanswered(s) && Heading(s, ack)
    ensures Heading(Step(s, p), ack)
  {
  }

  lemma HeadingStep(s: Boot, p: Poll, ack: bool)
    requires Sound(s) && Heading(s, ack)
    ensures Sound(Step(s, p)) && Heading(Step(s, p), ack)
  {
    StepSound(s, p);
    if s.halted {
    } else if s.tx != [] {
      FirstStays(s, p);
    } else if s.iapTick == 0 {
      HeadingAwaits(s, p, ack);
    } else if Unanswered(s) {
      HeadingAnswers(s, p, ack);
    }
  }

  lemma {:induction false} HeadingPolls(s: Boot, ps: seq<Poll>, ack: bool)
    requires Sound(s) && Heading(s, ack)
    ensures Heading(Polled(s, ps), ack)
    decreases |ps|
  {
    if ps != [] {
      HeadingPolls(s, ps[..|ps| - 1], ack);
      HeadingStep(Polled(s, ps[..|ps| - 1]), ps[|ps| - 1], ack);
    }
  }

  /**
   * A tail whose length is no multiple of four, under every schedule of polls up to a pause: the
   * host sees an acknowledgement if and only if the bytes behind the length byte, taken two by
   * two as a command and its complement, come to a command that replies.
   */
  lemma OddTailAcknowledged(s: Boot, data: seq<bv8>, ps: seq<Poll>)
    requires Sound(s) && !s.halted && Rests(s, AtWriteData) && s.tx == []
    requires 0 < |data| <= 256 && |data| % 4 != 0
    ensures
      var r := Receive(s, DataFrame(data));
      && Sound(r)
      && (Paused(Polled(r, ps)) ==> (Acknowledged(Polled(r, ps).tx) <==> Hears(DataFrame(data)[1..])))
  {
    var r := Receive(s, DataFrame(data));
    ReceiveSound(s, DataFrame(data));
    assert r.rx == DataFrame(data);
    HeardFrom(r, DataFrame(data)[1..], ps);
  }

  /** From a refused length on. */
  lemma HeardFrom(r: Boot, behind: seq<bv8>, ps: seq<Poll>)
    requires Sound(r) && Inside(r, CMD_WRITE, 2) && r.tx == [] && r.rx != [] && Value(r.rx[0]) % 4 != 3
    requires behind == r.rx[1..]
    ensures Paused(Polled(r, ps)) ==> (Acknowledged(Polled(r, ps).tx) <==> Hears(behind))
  {
    HeadingPolls(r, ps, Hears(behind));
    if Paused(Polled(r, ps)) {
      HeardAtPause(Polled(r, ps), Hears(behind));
    }
  }

  lemma HeardAtPause(s: Boot, ack: bool)
    requires Heading(s, ack) && Paused(s)
    ensures Acknowledged(s.tx) == ack
  {
  }

  /** The two-byte tail 01 FE is one of these. */
  lemma TailTakenForVersion(s: Boot, ps: seq<Poll>)
    requires Sound(s) && !s.halted && Rests(s, AtWriteData) && s.tx == []
    ensures var r := Receive(s, DataFrame([0x01, 0xFE]));
            Sound(r) && (Paused(Polled(r, ps)) ==> Acknowledged(Polled(r, ps).tx))
  {
    OddTailAcknowledged(s, [0x01, 0xFE], ps);
  }
}
