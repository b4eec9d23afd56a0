/**
 * The bootloader program: its static variables, its receive queue and its flash, changed in
 * place one call of `IapRun` at a time.
 */
module Device {
  import opened Flash
  import opened Octets
  import opened Bootloader

  class Device {
    var iapTick: nat
    var blCmd: bv8
    var exeTick: nat
    var readAddr: nat
    var readLen: nat
    var writeAddr: nat
    var writeLen: nat
    var rx: seq<bv8>
    var tx: seq<seq<bv8>>
    var halted: bool
    const version: bv8
    const flash: Controller

    constructor (version: bv8, flash: Controller)
      requires flash.Ready()
      ensures this.flash == flash && Built()
      ensures State() == Boot(0, 0, 0, 0, 0, 0, 0, [], [], false, version, flash.Contents())
    {
      iapTick, blCmd, exeTick := 0, 0, 0;
      readAddr, readLen, writeAddr, writeLen := 0, 0, 0, 0;
      rx, tx, halted := [], [], false;
      this.version := version;
      this.flash := flash;
    }

    ghost predicate Built()
      reads this, flash
    {
      flash.Ready()
    }

    ghost function State(): Boot
      requires Built()
      reads this, flash, flash.cell, flash.mark
    {
      Boot(iapTick, blCmd, exeTick, readAddr, readLen, writeAddr, writeLen, rx, tx, halted, version, flash.Contents())
    }

    method IapdevWriteByte(value: bv8)
      requires Built()
      modifies this
      ensures State() == Send(old(State()), [[value]])
    {
      tx := tx + [[value]];
    }

    method WriteBuffer(bytes: seq<bv8>)
      requires Built()
      modifies this
      ensures State() == Send(old(State()), [bytes])
    {
      tx := tx + [bytes];
    }

    method IapdevReadByte() returns (value: bv8)
      requires Built() && rx != []
      modifies this
      ensures value == old(rx)[0]
      ensures State() == old(State()).(rx := old(rx)[1..])
    {
      value := rx[0];
      rx := rx[1..];
    }

    method ReadBuffer(n: nat) returns (bytes: seq<bv8>)
      requires Built() && n <= |rx|
      modifies this
      ensures bytes == old(rx)[..n]
      ensures State() == old(State()).(rx := old(rx)[n..])
    {
      bytes := rx[..n];
      rx := rx[n..];
    }

    /** The flow is broken when the timer has run out on a queue that does not look empty. */
    method IsDataFlowBreak(p: Poll) returns (b: bool)
      requires Built()
      ensures b == Broken(State(), p)
    {
      var empty := rx == [] && !p.unseen;
      b := if empty then false else p.late;
    }

    /** A datagram from the socket, cut to the socket buffer and to the room in the queue. */
    method RunReceiver(d: seq<bv8>)
      requires Built()
      modifies this
      ensures State() == Receive(old(State()), d)
    {
      var n := if |d| < DATAGRAM then |d| else DATAGRAM;
      var room := if |rx| < RX_CAPACITY then RX_CAPACITY - |rx| else 0;
      rx := rx + d[..if n < room then n else room];
    }

    /** Four bytes shifted into a register, the most significant first. */
    method TakeAddress(start: nat) returns (addr: nat)
      requires Built() && |rx| >= 4
      modifies this
      ensures addr == ShiftAll(start, old(rx)[..4])
      ensures State() == old(State()).(rx := old(rx)[4..])
    {
      addr := start;
      var i := 0;
      ghost var was := rx;
      while i < 4
        invariant 0 <= i <= 4
        invariant addr == ShiftAll(start, was[..i])
        invariant State() == old(State()).(rx := was[i..])
      {
        var b := IapdevReadByte();
        ShiftOne(start, was[..i], b);
        assert was[..i + 1] == was[..i] + [b];
        addr := ShiftIn(addr, b);
        i := i + 1;
      }
    }

    method Timeout()
      requires Built()
      modifies this
      ensures State() == Abort(old(State()))
    {
      rx := [];
      exeTick := 0;
    }

    method BlGetVersion() returns (a: Answer)
      requires Built()
      modifies this
      ensures (State(), a) == GetVersion(old(State()))
    {
      IapdevWriteByte(ACK);
      WriteBuffer([version, 0, 0, ACK]);
      assert old(tx) + [[ACK]] + [[version, 0, 0, ACK]] == old(tx) + [[ACK], [version, 0, 0, ACK]];
      a := Ok;
    }

    method BlGetId() returns (a: Answer)
      requires Built()
      modifies this
      ensures (State(), a) == GetId(old(State()))
    {
      WriteBuffer([ACK, 1, 0x04, 0x13, ACK]);
      a := Ok;
    }

    /** The bytes of memory from `addr` on, as the processor would read them. */
    method ReadBus(bus: nat -> bv8, addr: nat, n: nat) returns (bytes: seq<bv8>)
      requires Built()
      ensures bytes == Block(flash.Contents(), bus, addr, n)
    {
      bytes := [];
      var i := 0;
      while i < n
        invariant 0 <= i <= n && |bytes| == i
        invariant forall k :: 0 <= k < i ==> bytes[k] == Peek(flash.Contents(), bus, (addr + k) % WORD)
      {
        var a := (addr + i) % WORD;
        var inside := FLASH_BASE <= a < FLASH_BASE + FLASH_SIZE;
        bytes := bytes + [if inside then flash.cell[a - FLASH_BASE] else bus(a)];
        i := i + 1;
      }
    }

    method BlReadAddress() returns (a: Answer)
      requires Built() && |rx| >= 5 && exeTick == 1
      modifies this
      ensures (State(), a) == Bootloader.ReadAddress(old(State()))
    {
      readAddr := TakeAddress(readAddr);
      var sumCheck := IapdevReadByte();
      var sum := XorCheckSum(LittleEndian(readAddr));
      if sumCheck != sum {
        exeTick := 0;
        return Err;
      }
      IapdevWriteByte(ACK);
      exeTick := exeTick + 1;
      a := Yield;
    }

    /** The answer to a read: the acknowledgement, the bytes and their check byte. */
    method SendBlock(bus: nat -> bv8)
      requires Built()
      modifies this
      ensures var s := old(State()); var b := Block(s.flash, bus, s.readAddr, s.readLen);
              State() == Send(s, [[ACK], b, [Xor(b)]])
    {
      IapdevWriteByte(ACK);
      var block := ReadBus(bus, readAddr, readLen);
      WriteBuffer(block);
      var sum := XorCheckSum(block);
      IapdevWriteByte(sum);
      assert old(tx) + [[ACK]] + [block] + [[sum]] == old(tx) + [[ACK], block, [sum]];
    }

    method BlReadBlock(bus: nat -> bv8) returns (a: Answer)
      requires Built() && |rx| >= 2
      modifies this
      ensures (State(), a) == ReadBlock(old(State()), bus)
    {
      var b := IapdevReadByte();
      readLen := Value(b) + 1;
      var c := IapdevReadByte();
      exeTick := 0;
      if Value(c) != readLen - 1 {
        return Err;
      }
      SendBlock(bus);
      a := Ok;
    }

    method BlReadMemory(p: Poll) returns (a: Answer)
      requires Built()
      modifies this
      ensures (State(), a) == ReadMemory(old(State()), p)
    {
      if exeTick == 0 {
        IapdevWriteByte(ACK);
        exeTick := exeTick + 1;
        a := Yield;
      } else if exeTick == 1 {
        if |rx| < 5 {
          a := AwaitMore(p);
        } else {
          a := BlReadAddress();
        }
      } else if exeTick == 2 {
        if |rx| < 2 {
          a := AwaitMore(p);
        } else {
          a := BlReadBlock(p.bus);
        }
      } else {
        exeTick := 0;
        a := Err;
      }
    }

    /** Too few bytes in the queue: give up when the flow is broken, come back later otherwise. */
    method AwaitMore(p: Poll) returns (a: Answer)
      requires Built()
      modifies this
      ensures (State(), a) == if Broken(old(State()), p) then (Abort(old(State())), Err) else (old(State()), Yield)
    {
      var broken := IsDataFlowBreak(p);
      if broken {
        Timeout();
        return Err;
      }
      a := Yield;
    }

    method BlGoAddress() returns (a: Answer)
      requires Built() && |rx| >= 5 && exeTick == 1
      modifies this
      ensures (State(), a) == GoAddress(old(State()))
    {
      var startAddr := TakeAddress(0);
      var sumCheck := IapdevReadByte();
      var sum := XorCheckSum(LittleEndian(startAddr));
      if sumCheck == sum {
        IapdevWriteByte(ACK);
        halted := true;
      }
      exeTick := 0;
      a := Err;
    }

    method BlGo(p: Poll) returns (a: Answer)
      requires Built()
      modifies this
      ensures (State(), a) == Go(old(State()), p)
    {
      if exeTick == 0 {
        IapdevWriteByte(ACK);
        exeTick := exeTick + 1;
        a := Yield;
      } else if exeTick == 1 {
        if |rx| < 5 {
          a := AwaitMore(p);
        } else {
          a := BlGoAddress();
        }
      } else {
        exeTick := 0;
        a := Err;
      }
    }

    method BlWriteAddress() returns (a: Answer)
      requires Built() && |rx| >= 5 && exeTick == 1
      modifies this
      ensures (State(), a) == WriteAddress(old(State()))
    {
      writeAddr := TakeAddress(0);
      var sumCheck := IapdevReadByte();
      var sum := XorCheckSum(LittleEndian(writeAddr));
      if sumCheck != sum {
        IapdevWriteByte(NACK);
        exeTick := 0;
        return Err;
      }
      IapdevWriteByte(ACK);
      exeTick := exeTick + 1;
      a := Yield;
    }

    method BlWriteLength() returns (a: Answer)
      requires Built() && rx != [] && exeTick == 2
      modifies this
      ensures (State(), a) == WriteLength(old(State()))
    {
      var b := IapdevReadByte();
      writeLen := Value(b) + 1;
      if writeLen <= 0 || writeLen > 256 || writeLen % 4 != 0 {
        exeTick := 0;
        return Err;
      }
      exeTick := exeTick + 1;
      a := Yield;
    }

    method BlWriteData() returns (a: Answer)
      requires Built() && 0 < writeLen <= 256 && |rx| > writeLen
      modifies this, flash.cell, flash.mark
      ensures (State(), a) == WriteData(old(State()))
    {
      var buffer := ReadBuffer(writeLen);
      var sumCheck := IapdevReadByte();
      var sum := XorCheckSum(buffer);
      exeTick := 0;
      if sumCheck != sum ^ ByteOf(writeLen - 1) {
        IapdevWriteByte(NACK);
        return Err;
      }
      var done := flash.WriteBytes(writeAddr, buffer);
      if !done {
        IapdevWriteByte(NACK);
        return Err;
      }
      IapdevWriteByte(ACK);
      a := Ok;
    }

    method BlWriteMemory(p: Poll) returns (a: Answer)
      requires Built() && (exeTick == 3 ==> 0 < writeLen <= 256)
      modifies this, flash.cell, flash.mark
      ensures (State(), a) == WriteMemory(old(State()), p)
    {
      if exeTick == 0 {
        IapdevWriteByte(ACK);
        exeTick := exeTick + 1;
        a := Yield;
      } else if exeTick == 1 {
        if |rx| < 5 {
          a := AwaitMore(p);
        } else {
          a := BlWriteAddress();
        }
      } else if exeTick == 2 {
        if rx == [] {
          return Yield;
        }
        a := BlWriteLength();
      } else if exeTick == 3 {
        if |rx| < writeLen + 1 {
          a := AwaitMore(p);
        } else {
          a := BlWriteData();
        }
      } else {
        exeTick := 0;
        a := Err;
      }
    }

    /** The entry of the dispatch table with number `i`; the ones not written out do nothing. */
    method Entry(i: nat, p: Poll) returns (a: Answer)
      requires Built() && Sound(State()) && i < |COMMANDS| && blCmd == COMMANDS[i]
      modifies this, flash.cell, flash.mark
      ensures (State(), a) == Execute(old(State()), p)
    {
      if i == 1 {
        a := BlGetVersion();
      } else if i == 2 {
        a := BlGetId();
      } else if i == 3 {
        a := BlReadMemory(p);
      } else if i == 4 {
        a := BlGo(p);
      } else if i == 5 {
        a := BlWriteMemory(p);
      } else {
        a := Ok;
      }
    }

    method BlExecuteCmd(p: Poll) returns (a: Answer)
      requires Built() && Sound(State())
      modifies this, flash.cell, flash.mark
      ensures (State(), a) == Execute(old(State()), p)
    {
      var i := 0;
      while i < |COMMANDS|
        invariant 0 <= i <= |COMMANDS|
        invariant blCmd !in COMMANDS[..i]
        invariant State() == old(State())
      {
        if COMMANDS[i] == blCmd {
          a := Entry(i, p);
          return;
        }
        i := i + 1;
      }
      assert COMMANDS[..i] == COMMANDS;
      a := Err;
    }

    method TakePair() returns (first: bv8, second: bv8)
      requires Built() && |rx| >= 2
      modifies this
      ensures first == old(rx)[0] && second == old(rx)[1]
      ensures State() == old(State()).(rx := old(rx)[2..])
    {
      first := IapdevReadByte();
      second := IapdevReadByte();
    }

    method AwaitCommand(p: Poll)
      requires Built() && iapTick == 0
      modifies this
      ensures State() == Await(old(State()), p)
    {
      if |rx| < 2 {
        var broken := IsDataFlowBreak(p);
        if broken {
          rx := [];
        }
        return;
      }
      var cmd, sumCheck := TakePair();
      blCmd := cmd;
      if cmd ^ sumCheck != 0xFF {
        IapdevWriteByte(NACK);
        return;
      }
      iapTick := iapTick + 1;
    }

    /** One call of the main loop's step. */
    method IapRun(p: Poll)
      requires Built() && Sound(State())
      modifies this, flash.cell, flash.mark
      ensures State() == Step(old(State()), p)
      ensures Sound(State())
    {
      StepSound(State(), p);
      if halted {
        return;
      }
      if iapTick == 0 {
        AwaitCommand(p);
      } else if iapTick == 1 {
        var a := BlExecuteCmd(p);
        if a == Ok || a == Err {
          iapTick := 0;
        }
      }
    }
  }
}
