/**
 * The device side of the firmware update: the outer step machine that reads a command and its
 * complement, and one yield-style step machine per command. Each call of `IapRun` is one step.
 * `Step` and the functions under it say what one call does to the whole state; the class is
 * the program, and every method of it is proved to be its function.
 */
module Bootloader {
  import opened Flash
  import opened Octets

  const ACK: bv8 := 0x79
  const NACK: bv8 := 0x1F
  const CMD_READ: bv8 := 0x11
  const CMD_GO: bv8 := 0x21
  const CMD_WRITE: bv8 := 0x31
  const RX_CAPACITY := 299
  const DATAGRAM := 300

  datatype Answer = Ok | Err | Yield

  /**
   * What one call sees of the outside: whether the flow timer has run out, whether the positions
   * of the receive queue are where an empty queue does not look empty, and the bytes beyond the flash.
   */
  datatype Poll = Poll(late: bool, unseen: bool, bus: nat -> bv8)

  /** The statics of the two source files, the receive queue, the datagrams sent, and the flash. */
  datatype Boot = Boot(iapTick: nat, blCmd: bv8, exeTick: nat, readAddr: nat, readLen: nat,
                       writeAddr: nat, writeLen: nat, rx: seq<bv8>, tx: seq<seq<bv8>>, halted: bool,
                       version: bv8, flash: Nor)

  // ---------------------------------------------------------------- what one step does

  ghost predicate Broken(s: Boot, p: Poll) {
    p.late && (s.rx != [] || p.unseen)
  }

  /** Datagrams go out. */
  ghost function Send(s: Boot, datagrams: seq<seq<bv8>>): Boot {
    s.(tx := s.tx + datagrams)
  }

  /** A datagram arrives: at most 300 bytes of it are taken from the socket, and what the queue has room for. */
  ghost function Receive(s: Boot, d: seq<bv8>): Boot {
    var n := if |d| < DATAGRAM then |d| else DATAGRAM;
    var room := if |s.rx| < RX_CAPACITY then RX_CAPACITY - |s.rx| else 0;
    s.(rx := s.rx + d[..if n < room then n else room])
  }

  ghost function Abort(s: Boot): Boot {
    s.(rx := [], exeTick := 0)
  }

  ghost function GetVersion(s: Boot): (Boot, Answer) {
    (Send(s, [[ACK], [s.version, 0, 0, ACK]]), Ok)
  }

  ghost function GetId(s: Boot): (Boot, Answer) {
    (Send(s, [[ACK, 1, 0x04, 0x13, ACK]]), Ok)
  }

  /** The byte at an address: a flash cell, or whatever else is on the bus. */
  ghost function Peek(f: Nor, bus: nat -> bv8, addr: nat): bv8
    requires Valid(f)
  {
    if FLASH_BASE <= addr < FLASH_BASE + FLASH_SIZE then f.cell[addr - FLASH_BASE] else bus(addr)
  }

  ghost function Block(f: Nor, bus: nat -> bv8, addr: nat, n: nat): (s: seq<bv8>)
    requires Valid(f)
    ensures |s| == n
  {
    seq(n, i requires 0 <= i < n => Peek(f, bus, (addr + i) % WORD))
  }

  ghost function ReadAddress(s: Boot): (r: (Boot, Answer))
    requires |s.rx| >= 5
    ensures r.0 == s.(rx := s.rx[5..], readAddr := r.0.readAddr, tx := r.0.tx, exeTick := r.0.exeTick)
    ensures r.0.exeTick == if r.1 == Yield then 2 else 0
  {
    var a := ShiftAll(s.readAddr, s.rx[..4]);
    var t := s.(readAddr := a, rx := s.rx[5..]);
    if s.rx[4] != Xor(LittleEndian(a)) then (t.(exeTick := 0), Err)
    else (Send(t, [[ACK]]).(exeTick := 2), Yield)
  }

  ghost function ReadBlock(s: Boot, bus: nat -> bv8): (r: (Boot, Answer))
    requires |s.rx| >= 2 && Valid(s.flash)
    ensures r.0.rx == s.rx[2..] && r.0.flash == s.flash
  {
    var n := Value(s.rx[0]) + 1;
    var t := s.(readLen := n, rx := s.rx[2..], exeTick := 0);
    if Value(s.rx[1]) != n - 1 then (t, Err)
    else
      var b := Block(s.flash, bus, s.readAddr, n);
      (Send(t, [[ACK], b, [Xor(b)]]), Ok)
  }

  ghost function ReadMemory(s: Boot, p: Poll): (Boot, Answer)
    requires Valid(s.flash)
  {
    if s.exeTick == 0 then (Send(s, [[ACK]]).(exeTick := 1), Yield)
    else if s.exeTick == 1 then
      if |s.rx| < 5 then if Broken(s, p) then (Abort(s), Err) else (s, Yield)
      else ReadAddress(s)
    else if s.exeTick == 2 then
      if |s.rx| < 2 then if Broken(s, p) then (Abort(s), Err) else (s, Yield)
      else ReadBlock(s, p.bus)
    else (s.(exeTick := 0), Err)
  }

  /** A checked address leaves the bootloader: the jump to the program, or the reset when it has no stack. */
  ghost function GoAddress(s: Boot): (r: (Boot, Answer))
    requires |s.rx| >= 5
    ensures r.0 == s.(rx := s.rx[5..], exeTick := 0, tx := r.0.tx, halted := r.0.halted) && r.1 == Err
  {
    var t := s.(rx := s.rx[5..], exeTick := 0);
    if s.rx[4] != Xor(LittleEndian(ShiftAll(0, s.rx[..4]))) then (t, Err)
    else (Send(t, [[ACK]]).(halted := true), Err)
  }

  ghost function Go(s: Boot, p: Poll): (Boot, Answer) {
    if s.exeTick == 0 then (Send(s, [[ACK]]).(exeTick := 1), Yield)
    else if s.exeTick == 1 then
      if |s.rx| < 5 then if Broken(s, p) then (Abort(s), Err) else (s, Yield)
      else GoAddress(s)
    else (s.(exeTick := 0), Err)
  }

  ghost function WriteAddress(s: Boot): (r: (Boot, Answer))
    requires |s.rx| >= 5
    ensures r.0 == s.(rx := s.rx[5..], writeAddr := r.0.writeAddr, tx := r.0.tx, exeTick := r.0.exeTick)
    ensures r.0.exeTick == if r.1 == Yield then 2 else 0
  {
    var a := ShiftAll(0, s.rx[..4]);
    var t := s.(writeAddr := a, rx := s.rx[5..]);
    if s.rx[4] != Xor(LittleEndian(a)) then (Send(t, [[NACK]]).(exeTick := 0), Err)
    else (Send(t, [[ACK]]).(exeTick := 2), Yield)
  }

  ghost function WriteLength(s: Boot): (r: (Boot, Answer))
    requires |s.rx| >= 1
    ensures r.0 == s.(rx := s.rx[1..], writeLen := r.0.writeLen, exeTick := r.0.exeTick) && 0 < r.0.writeLen <= 256
    ensures if r.1 == Yield then r.0.exeTick == 3 && r.0.writeLen % 4 == 0 else r.0.exeTick == 0
  {
    var n := Value(s.rx[0]) + 1;
    var t := s.(writeLen := n, rx := s.rx[1..]);
    if n <= 0 || n > 256 || n % 4 != 0 then (t.(exeTick := 0), Err)
    else (t.(exeTick := 3), Yield)
  }

  ghost function Store(s: Boot, data: seq<bv8>): (r: (Boot, Answer))
    requires Valid(s.flash)
    ensures r.0 == s.(flash := r.0.flash, tx := r.0.tx) && Valid(r.0.flash) && r.1 != Yield
  {
    var t := s.(flash := Written(s.flash, s.writeAddr, data));
    if Reported(s.writeAddr, |data|) then (Send(t, [[ACK]]), Ok) else (Send(t, [[NACK]]), Err)
  }

  ghost function WriteData(s: Boot): (r: (Boot, Answer))
    requires Valid(s.flash) && 0 < s.writeLen <= 256 && |s.rx| > s.writeLen
    ensures r.0 == s.(rx := s.rx[s.writeLen + 1..], exeTick := 0, flash := r.0.flash, tx := r.0.tx)
    ensures Valid(r.0.flash) && r.1 != Yield
  {
    var data := s.rx[..s.writeLen];
    var t := s.(rx := s.rx[s.writeLen + 1..], exeTick := 0);
    if s.rx[s.writeLen] != Xor(data) ^ ByteOf(s.writeLen - 1) then (Send(t, [[NACK]]), Err) else Store(t, data)
  }

  ghost function WriteMemory(s: Boot, p: Poll): (Boot, Answer)
    requires Valid(s.flash) && (s.exeTick == 3 ==> 0 < s.writeLen <= 256)
  {
    if s.exeTick == 0 then (Send(s, [[ACK]]).(exeTick := 1), Yield)
    else if s.exeTick == 1 then
      if |s.rx| < 5 then if Broken(s, p) then (Abort(s), Err) else (s, Yield)
      else WriteAddress(s)
    else if s.exeTick == 2 then
      if s.rx == [] then (s, Yield) else WriteLength(s)
    else if s.exeTick == 3 then
      if |s.rx| < s.writeLen + 1 then if Broken(s, p) then (Abort(s), Err) else (s, Yield)
      else WriteData(s)
    else (s.(exeTick := 0), Err)
  }

  /** The command codes, in the order of the dispatch table. */
  const COMMANDS: seq<bv8> := [0x00, 0x01, 0x02, 0x11, 0x21, 0x31, 0x43, 0x44, 0x63, 0x73, 0x82, 0x92]

  ghost function Execute(s: Boot, p: Poll): (Boot, Answer)
    requires Sound(s)
  {
    if s.blCmd == 0x01 then GetVersion(s)
    else if s.blCmd == 0x02 then GetId(s)
    else if s.blCmd == CMD_READ then ReadMemory(s, p)
    else if s.blCmd == CMD_GO then Go(s, p)
    else if s.blCmd == CMD_WRITE then WriteMemory(s, p)
    else if s.blCmd in COMMANDS then (s, Ok)
    else (s, Err)
  }

  /** Waiting for a command: two bytes that are each other's complement. */
  ghost function Await(s: Boot, p: Poll): Boot {
    if |s.rx| < 2 then if Broken(s, p) then s.(rx := []) else s
    else
      var t := s.(blCmd := s.rx[0], rx := s.rx[2..]);
      if s.rx[0] ^ s.rx[1] != 0xFF then Send(t, [[NACK]]) else t.(iapTick := 1)
  }

  ghost function Step(s: Boot, p: Poll): Boot
    requires Sound(s)
  {
    if s.halted then s
    else if s.iapTick == 0 then Await(s, p)
    else
      Settle(Execute(s, p))
  }

  // ---------------------------------------------------------------- what every run keeps

  /** The last step number of a command. */
  ghost function LastTick(cmd: bv8): nat {
    if cmd == CMD_READ then 2 else if cmd == CMD_GO then 1 else if cmd == CMD_WRITE then 3 else 0
  }

  /** The invariant of both step machines. */
  ghost predicate Sound(s: Boot) {
    && s.iapTick <= 1
    && (s.iapTick == 0 ==> s.exeTick == 0)
    && s.exeTick <= LastTick(s.blCmd)
    && (s.blCmd == CMD_WRITE && s.exeTick == 3 ==> 0 < s.writeLen <= 256 && s.writeLen % 4 == 0)
    && |s.rx| <= RX_CAPACITY
    && Valid(s.flash)
  }

  /** How many bytes the machine waits for before it goes on. */
  ghost function Awaited(s: Boot): nat {
    if s.iapTick == 0 then 2
    else if s.exeTick == 0 then 0
    else if s.exeTick == 1 then 5
    else if s.exeTick == 3 then s.writeLen + 1
    else if s.blCmd == CMD_WRITE then 1
    else 2
  }

  /** A datagram of any bytes keeps the invariant; it is taken whole exactly when the queue has room for it. */
  lemma ReceiveSound(s: Boot, d: seq<bv8>)
    requires Sound(s)
    ensures Sound(Receive(s, d))
    ensures Receive(s, d).rx == s.rx + d <==> |s.rx| + |d| <= 299
    ensures |s.rx| + |d| > 299 ==> |Receive(s, d).rx| == 299 && s.rx <= Receive(s, d).rx <= s.rx + d
  {
    var n := if |d| < DATAGRAM then |d| else DATAGRAM;
    var room := RX_CAPACITY - |s.rx|;
    var taken := d[..if n < room then n else room];
    if |s.rx| + |d| > RX_CAPACITY {
      assert |Receive(s, d).rx| == RX_CAPACITY;
      assert s.rx + d == s.rx + taken + d[|taken|..];
    }
  }

  /** The outer machine takes over the command's answer. */
  ghost function Settle(r: (Boot, Answer)): Boot {
    if r.1 == Yield then r.0 else r.0.(iapTick := 0)
  }

  lemma ReadSound(s: Boot, p: Poll)
    requires Sound(s) && s.iapTick == 1 && s.blCmd == CMD_READ
    ensures Sound(Settle(ReadMemory(s, p)))
  {
  }

  lemma GoAddressSound(s: Boot)
    requires Sound(s) && s.iapTick == 1 && |s.rx| >= 5
    ensures Sound(Settle(GoAddress(s)))
  {
  }

  lemma GoSound(s: Boot, p: Poll)
    requires Sound(s) && s.iapTick == 1 && s.blCmd == CMD_GO
    ensures Sound(Settle(Go(s, p)))
  {
    if |s.rx| >= 5 {
      GoAddressSound(s);
    }
  }

  lemma WriteAddressSound(s: Boot)
    requires Sound(s) && s.iapTick == 1 && s.blCmd == CMD_WRITE && |s.rx| >= 5
    ensures Sound(Settle(WriteAddress(s)))
  {
  }

  lemma WriteLengthSound(s: Boot)
    requires Sound(s) && s.iapTick == 1 && s.blCmd == CMD_WRITE && |s.rx| >= 1
    ensures Sound(Settle(WriteLength(s)))
  {
  }

  lemma WriteDataSound(s: Boot)
    requires Sound(s) && s.iapTick == 1 && 0 < s.writeLen <= 256 && |s.rx| > s.writeLen
    ensures Sound(Settle(WriteData(s)))
  {
  }

  lemma WriteSound(s: Boot, p: Poll)
    requires Sound(s) && s.iapTick == 1 && s.blCmd == CMD_WRITE
    ensures Sound(Settle(WriteMemory(s, p)))
  {
    if s.exeTick == 1 && |s.rx| >= 5 {
      WriteAddressSound(s);
    } else if s.exeTick == 2 && s.rx != [] {
      WriteLengthSound(s);
    } else if s.exeTick == 3 && |s.rx| > s.writeLen {
      WriteDataSound(s);
    }
  }

  /** For every poll, one step keeps the invariant. */
  lemma StepSound(s: Boot, p: Poll)
    requires Sound(s)
    ensures Sound(Step(s, p))
  {
    if !s.halted && s.iapTick == 1 {
      if s.blCmd == CMD_READ {
        ReadSound(s, p);
      } else if s.blCmd == CMD_GO {
        GoSound(s, p);
      } else if s.blCmd == CMD_WRITE {
        WriteSound(s, p);
      }
    }
  }
}
