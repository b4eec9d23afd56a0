/**
 * The host side of the update: every operation is a loop of messages, each followed by a wait
 * for an acknowledgement, and starts again when none comes. The network between host and device
 * may lose any message and any answer; the device reacts under any schedule of polls.
 */
module Loader {
  import opened Flash
  import opened Images
  import opened Octets
  import opened Bootloader
  import opened Frames
  import opened Exchange
  import D = Device

  const SEND_DATA_LEN := 256

  // ---------------------------------------------------------------- between two messages

  ghost function RestOf(s: Boot): Rest {
    if s.iapTick == 0 then AtIdle
    else if s.blCmd == CMD_READ then (if s.exeTick == 1 then AtReadAddress else AtReadLength)
    else if s.exeTick == 1 then AtWriteAddress
    else AtWriteData
  }

  /** The device as a lost answer may leave it: at rest in any step of the two commands. */
  ghost predicate Between(s: Boot) {
    Sound(s) && !s.halted && Rests(s, RestOf(s))
  }

  /** A device not waiting for a command spends the next attempt on getting there. */
  ghost function Debt(s: Boot): nat {
    if Rests(s, AtIdle) then 0 else 1
  }

  // ---------------------------------------------------------------- the network

  /** The datagrams that came through, one after another. */
  ghost function Kept(sent: seq<seq<bv8>>, got: seq<bool>): seq<bv8>
    requires |got| == |sent|
  {
    if sent == [] then []
    else Kept(sent[..|sent| - 1], got[..|got| - 1]) + if got[|got| - 1] then sent[|sent| - 1] else []
  }

  ghost function Missing(got: seq<bool>): nat {
    if got == [] then 0 else Missing(got[..|got| - 1]) + if got[|got| - 1] then 0 else 1
  }

  lemma KeptMore(sent: seq<seq<bv8>>, got: seq<bool>, d: seq<bv8>, g: bool)
    requires |got| == |sent|
    ensures Kept(sent + [d], got + [g]) == Kept(sent, got) + if g then d else []
    ensures Missing(got + [g]) == Missing(got) + if g then 0 else 1
  {
    assert (sent + [d])[..|sent|] == sent && (got + [g])[..|got|] == got;
  }

  lemma KeptOne(d: seq<bv8>, got: seq<bool>)
    requires |got| == 1
    ensures Kept([d], got) == (if got[0] then d else []) && Missing(got) == if got[0] then 0 else 1
  {
    KeptMore([], [], d, got[0]);
    assert [] + [d] == [d] && [] + [got[0]] == got;
  }

  lemma KeptTwo(a: seq<bv8>, b: seq<bv8>, got: seq<bool>)
    requires |got| == 2
    ensures Kept([a, b], got) == (if got[0] then a else []) + (if got[1] then b else [])
    ensures Missing(got) == (if got[0] then 0 else 1) + (if got[1] then 0 else 1)
  {
    KeptOne(a, [got[0]]);
    KeptMore([a], [got[0]], b, got[1]);
    assert [a] + [b] == [a, b] && [got[0]] + [got[1]] == got;
  }

  lemma KeptThree(a: seq<bv8>, b: seq<bv8>, c: seq<bv8>, got: seq<bool>)
    requires |got| == 3
    ensures Kept([a, b, c], got) == Kept([a, b], got[..2]) + (if got[2] then c else [])
    ensures Missing(got) == Missing(got[..2]) + (if got[2] then 0 else 1)
  {
    KeptMore([a, b], got[..2], c, got[2]);
    assert [a, b] + [c] == [a, b, c] && got[..2] + [got[2]] == got;
  }

  /** The device is where the message is expected, with nothing on the wire. */
  ghost predicate Ready(ph: Phase, s: Boot) {
    SendablePhase(ph) && Sound(s) && !s.halted && s.tx == [] && Quiet(s) && Before(ph, s)
  }

  /** The device after a message was on its way: untouched and one loss counted, or past the exchange. */
  ghost predicate Delivered(ph: Phase, s: Boot, t: Boot, lost: int)
    requires SendablePhase(ph) && Valid(s.flash)
  {
    && Sound(t) && !t.halted
    && ((t == s && lost == 1) || (After(ph, s.flash, t) && lost == 0))
  }

  /** The same once the answer had its chance to come back; `got` is empty for a message that was lost. */
  ghost predicate Returned(ph: Phase, s: Boot, t: Boot, inbox: seq<bv8>, lost: int, got: seq<bool>)
    requires SendablePhase(ph) && Valid(s.flash)
  {
    && Sound(t) && !t.halted && t.tx == []
    && ((t == s && inbox == [] && lost == 1 && got == [])
        || (Arrived(ph, s.flash, t)
            && |got| == |AnswerTo(ph, s.flash)|
            && inbox == Kept(AnswerTo(ph, s.flash), got)
            && lost == Missing(got)))
  }

  /**
   * The same when the host has come back: with nothing lost and an answer in hand it goes on at
   * once, otherwise it waits, and a device waiting inside a command may drop it meanwhile.
   */
  ghost predicate Result(ph: Phase, s: Boot, t: Boot, inbox: seq<bv8>, lost: int, got: seq<bool>)
    requires SendablePhase(ph) && Valid(s.flash)
  {
    exists u :: Returned(ph, s, u, inbox, lost, got) && (t == u || (t == Dropped(u) && (lost > 0 || inbox == [])))
  }

  lemma Answered(ph: Phase, s: Boot, t: Boot, lost: int, got: seq<bool>)
    requires SendablePhase(ph) && Valid(s.flash) && s.tx == [] && Delivered(ph, s, t, lost)
    requires |got| == |t.tx|
    ensures Returned(ph, s, t.(tx := []), Kept(t.tx, got), lost + Missing(got), got)
  {
    if After(ph, s.flash, t) && lost == 0 {
      assert Arrived(ph, s.flash, t.(tx := []));
    } else {
      assert got == [];
    }
  }

  lemma ReturnedQuiet(ph: Phase, s: Boot, t: Boot, inbox: seq<bv8>, lost: int, got: seq<bool>)
    requires SendablePhase(ph) && Valid(s.flash) && Quiet(s) && Returned(ph, s, t, inbox, lost, got)
    ensures Quiet(t)
  {
  }

  // ---------------------------------------------------------------- chunks

  /** The end of the chunk that starts at `i`. */
  function NextChunk(image: seq<bv8>, i: nat): (j: nat)
    requires i <= |image|
    ensures i <= j <= |image|
  {
    if i + SEND_DATA_LEN > |image| then |image| else i + SEND_DATA_LEN
  }

  /** The bytes [i, j) of an image make a message the device takes. */
  ghost predicate Chunk(a: nat, image: seq<bv8>, i: nat, j: nat) {
    i < j <= |image| && InPage(a + i, j - i) && (j - i) % 4 == 0
  }

  lemma NextIsChunk(a: nat, image: seq<bv8>, i: nat)
    requires a % 256 == 0 && i % 256 == 0 && i < |image| && |image| % 4 == 0
    ensures Chunk(a, image, i, NextChunk(image, i))
  {
  }

  lemma WordIsChunk(a: nat, image: seq<bv8>, i: nat)
    requires a % 256 == 0 && i % 4 == 0 && i + 4 <= |image|
    ensures Chunk(a, image, i, i + 4)
  {
  }

  /** What an operation comes to: finished, given up after too many failures, or ended by an exception. */
  datatype Outcome = Finished | Exited | Raised

  datatype Reading = Word(bytes: seq<bv8>) | NoWord(outcome: Outcome)

  class Host {
    const dev: D.Device
    var inbox: seq<bv8>
    ghost var losses: nat

    constructor (dev: D.Device)
      requires dev.Built()
      ensures this.dev == dev && Linked() && losses == 0
    {
      this.dev := dev;
      inbox := [];
      losses := 0;
    }

    ghost predicate Linked()
      reads this, dev, dev.flash
    {
      dev.Built()
    }

    ghost function State(): Boot
      requires Linked()
      reads this, dev, dev.flash, dev.flash.cell, dev.flash.mark
    {
      dev.State()
    }

    /** One call of the device's step, remembered in the schedule. */
    method PollOnce(p: Poll, ghost s: Boot, ghost ps: seq<Poll>)
      requires Linked() && Sound(s) && State() == Polled(s, ps)
      modifies dev, dev.flash.cell, dev.flash.mark
      ensures State() == Step(old(State()), p) == Polled(s, ps + [p])
    {
      assert (ps + [p])[..|ps|] == ps;
      dev.IapRun(p);
    }

    /** Any number of polls answered in any way, or in any steady way. */
    method PollFreely(n: nat, steady: bool) returns (ghost ps: seq<Poll>)
      requires Linked() && Sound(State())
      modifies dev, dev.flash.cell, dev.flash.mark
      ensures State() == Polled(old(State()), ps) && (steady ==> AllSteady(ps))
    {
      ghost var s := State();
      ps := [];
      var i := 0;
      while i < n
        invariant State() == Polled(s, ps) && (steady ==> AllSteady(ps))
      {
        var p: Poll := *;
        if steady {
          p := p.(late := p.late && !p.unseen);
        }
        PollOnce(p, s, ps);
        ps := ps + [p];
        i := i + 1;
      }
    }

    /** The device answers or comes to rest; a flow that stalls long enough is seen as broken. */
    method PollToPause(ghost s: Boot, ghost before: seq<Poll>) returns (ghost ps: seq<Poll>)
      requires Linked() && Sound(s) && State() == Polled(s, before) && AllSteady(before)
      modifies dev, dev.flash.cell, dev.flash.mark
      ensures State() == Polled(s, ps) && AllSteady(ps)
      ensures State().halted || Paused(State())
    {
      ps := before;
      while !dev.halted && dev.tx == [] && (dev.rx != [] || (dev.iapTick == 1 && dev.exeTick == 0))
        invariant State() == Polled(s, ps) && AllSteady(ps)
        decreases |dev.rx|, if Unanswered(State()) then 1 else 0
      {
        var p: Poll := *;
        p := p.(late := true, unseen := false);
        StepMoves(State(), p);
        PollOnce(p, s, ps);
        ps := ps + [p];
      }
    }

    /** The device reacts to what it received, under any steady schedule. */
    method Serve() returns (ghost ps: seq<Poll>)
      requires Linked() && Sound(State())
      modifies dev, dev.flash.cell, dev.flash.mark
      ensures State() == Polled(old(State()), ps) && AllSteady(ps)
      ensures State().halted || Paused(State())
    {
      var n: nat := *;
      ghost var s := State();
      ps := PollFreely(n, true);
      ps := PollToPause(s, ps);
    }

    /** The network takes the message to the device, or loses it. */
    method Deliver(message: seq<bv8>, ghost ph: Phase) returns (arrives: bool)
      requires Linked() && Ready(ph, State()) && message == Message(ph)
      modifies `losses, dev, dev.flash.cell, dev.flash.mark
      ensures Delivered(ph, old(State()), State(), losses - old(losses))
      ensures arrives <==> losses == old(losses)
    {
      arrives := *;
      ghost var s := State();
      if arrives {
        dev.RunReceiver(message);
        ReceiveSound(s, message);
        ghost var ps := Serve();
        Exchanged(ph, s, ps);
      } else {
        losses := losses + 1;
      }
    }

    /** One datagram of the answer comes in, or gets lost. */
    method TakeDatagram(d: seq<bv8>, ghost sent: seq<seq<bv8>>, ghost got: seq<bool>) returns (arrives: bool)
      requires |got| == |sent| && inbox == Kept(sent, got)
      modifies `inbox, `losses
      ensures inbox == Kept(sent + [d], got + [arrives])
      ensures losses + Missing(got) == old(losses) + Missing(got + [arrives])
    {
      arrives := *;
      KeptMore(sent, got, d, arrives);
      if arrives {
        inbox := inbox + d;
      } else {
        losses := losses + 1;
      }
    }

    /** The answer comes in datagram by datagram, or parts of it get lost. */
    method CollectAll(sent: seq<seq<bv8>>) returns (ghost got: seq<bool>, whole: bool)
      requires inbox == []
      modifies `inbox, `losses
      ensures |got| == |sent| && inbox == Kept(sent, got) && losses == old(losses) + Missing(got)
      ensures whole <==> Missing(got) == 0
    {
      got, whole := [], true;
      var i := 0;
      while i < |sent|
        invariant 0 <= i <= |sent| && |got| == i && (whole <==> Missing(got) == 0)
        invariant inbox == Kept(sent[..i], got) && losses == old(losses) + Missing(got)
      {
        var arrives := TakeDatagram(sent[i], sent[..i], got);
        assert sent[..i + 1] == sent[..i] + [sent[i]];
        assert (got + [arrives])[..i] == got;
        got := got + [arrives];
        whole := whole && arrives;
        i := i + 1;
      }
      assert sent[..i] == sent;
    }

    method Collect() returns (ghost got: seq<bool>, whole: bool)
      requires Linked() && inbox == []
      modifies `inbox, `losses, dev`tx
      ensures State() == old(State()).(tx := [])
      ensures |got| == |old(dev.tx)| && inbox == Kept(old(dev.tx), got) && losses == old(losses) + Missing(got)
      ensures whole <==> Missing(got) == 0
    {
      got, whole := CollectAll(dev.tx);
      dev.tx := [];
    }

    /** The host waits for more until its timeout; the device is polled in any way. */
    method WaitOut()
      requires Linked() && Sound(State()) && !State().halted && Quiet(State())
      modifies dev, dev.flash.cell, dev.flash.mark
      ensures State() == old(State()) || State() == Dropped(old(State()))
    {
      var n: nat := *;
      ghost var s := State();
      ghost var ps := PollFreely(n, false);
      Undisturbed(s, ps);
    }

    /** One message to the device and what comes back of the answer; `whole` if nothing was lost. */
    method SendAndCollect(message: seq<bv8>, ghost ph: Phase) returns (whole: bool, ghost got: seq<bool>)
      requires Linked() && Ready(ph, State()) && message == Message(ph) && inbox == []
      modifies this, dev, dev.flash.cell, dev.flash.mark
      ensures Linked() && Returned(ph, old(State()), State(), inbox, losses - old(losses), got)
      ensures whole <==> losses == old(losses)
    {
      ghost var s := State();
      var arrived := Deliver(message, ph);
      ghost var t, lost := State(), losses - old(losses);
      got, whole := Collect();
      Answered(ph, s, t, lost, got);
      whole := whole && arrived;
    }

    /** Drop what came in before, send one message, and let the answer to it come in or get lost. */
    method ForwardWrite(message: seq<bv8>, ghost ph: Phase) returns (ghost got: seq<bool>)
      requires Linked() && Ready(ph, State().(tx := [])) && message == Message(ph)
      modifies this, dev, dev.flash.cell, dev.flash.mark
      ensures Linked() && Result(ph, old(State()).(tx := []), State(), inbox, losses - old(losses), got)
    {
      inbox := [];
      dev.tx := [];
      ghost var s := State();
      var whole;
      whole, got := SendAndCollect(message, ph);
      ghost var u, lost := State(), losses - old(losses);
      if !whole || inbox == [] {
        ReturnedQuiet(ph, s, u, inbox, lost, got);
        WaitOut();
      }
      assert Returned(ph, s, u, inbox, lost, got) && (State() == u || State() == Dropped(u));
    }

    /** Some bytes from the device; none if not enough came before the timeout. */
    method Read(n: nat) returns (bytes: seq<bv8>)
      requires Linked()
      modifies `inbox
      ensures |old(inbox)| >= n ==> bytes == old(inbox)[..n] && inbox == old(inbox)[n..]
      ensures |old(inbox)| < n ==> bytes == [] && inbox == old(inbox)
    {
      bytes := [];
      if |inbox| >= n {
        bytes := inbox[..n];
        inbox := inbox[n..];
      }
    }

    /** One byte from the device; anything but an acknowledgement empties the buffer. */
    method ConfirmAck() returns (ok: bool)
      requires Linked()
      modifies `inbox
      ensures ok == (|old(inbox)| > 0 && old(inbox)[0] == ACK)
      ensures inbox == if ok then old(inbox)[1..] else []
    {
      var stmback := Read(1);
      if |stmback| == 0 || stmback[0] != ACK {
        inbox := [];
        return false;
      }
      ok := true;
    }

    // -------------------------------------------------------------- single messages

    /** The first message of every attempt. */
    method SendCommand(cmd: bv8) returns (ok: bool)
      requires Linked() && Between(State()) && Known(cmd)
      modifies this, dev, dev.flash.cell, dev.flash.mark
      ensures Linked() && Between(State()) && State().flash == old(State().flash)
      ensures ok ==> Rests(State(), AfterCommand(cmd)) && old(Debt(State())) == 0 && losses == old(losses)
      ensures !ok ==> 1 + Debt(State()) <= old(Debt(State())) + 2 * (losses - old(losses))
    {
      ghost var at := RestOf(State());
      ghost var got := ForwardWrite(CommandFrame(cmd), Command(cmd, at));
      if at == AtIdle && |got| == 1 {
        KeptOne([ACK], got);
      }
      ok := ConfirmAck();
    }

    /** The second message: an address with its check byte. */
    method SendAddress(cmd: bv8, addr: nat) returns (ok: bool)
      requires Linked() && Between(State()) && Known(cmd) && Rests(State(), AfterCommand(cmd)) && addr < WORD
      modifies this, dev, dev.flash.cell, dev.flash.mark
      ensures Linked() && Between(State()) && State().flash == old(State().flash)
      ensures ok ==> Rests(State(), AfterAddress(cmd)) && losses == old(losses)
      ensures ok ==> (if cmd == CMD_WRITE then State().writeAddr else State().readAddr) == addr
      ensures !ok ==> losses == old(losses) + 1
    {
      var byteAddress := BigEndian(addr);
      var sum := XorCheckSum(byteAddress);
      byteAddress := byteAddress + [sum];
      ghost var got := ForwardWrite(byteAddress, Address(cmd, addr));
      if |got| == 1 {
        KeptOne([ACK], got);
      }
      ok := ConfirmAck();
    }

    /** Command and address. */
    method SendHead(cmd: bv8, addr: nat) returns (ok: bool)
      requires Linked() && Between(State()) && Known(cmd) && addr < WORD
      modifies this, dev, dev.flash.cell, dev.flash.mark
      ensures Linked() && Between(State()) && State().flash == old(State().flash)
      ensures ok ==> Rests(State(), AfterAddress(cmd)) && old(Debt(State())) == 0 && losses == old(losses)
      ensures ok ==> (if cmd == CMD_WRITE then State().writeAddr else State().readAddr) == addr
      ensures !ok ==> 1 + Debt(State()) <= old(Debt(State())) + 2 * (losses - old(losses))
    {
      ok := SendCommand(cmd);
      if ok {
        ok := SendAddress(cmd, addr);
      }
    }

    /** The third message of a write: length, data and check byte. */
    method SendData(addr: nat, data: seq<bv8>) returns (ok: bool)
      requires Linked() && Between(State()) && Rests(State(), AtWriteData) && State().writeAddr == addr
      requires Sendable(addr, data)
      modifies this, dev, dev.flash.cell, dev.flash.mark
      ensures Linked() && Between(State())
      ensures State().flash == old(State().flash) || State().flash == Written(old(State().flash), addr, data)
      ensures ok ==> Rests(State(), AtIdle) && losses == old(losses)
      ensures ok ==> State().flash == Written(old(State().flash), addr, data)
      ensures !ok ==> losses == old(losses) + 1
    {
      var slip := [ByteOf(|data| - 1)] + data;
      var sum := XorCheckSum(slip);
      slip := slip + [sum];
      ghost var got := ForwardWrite(slip, Data(addr, data));
      if |got| == 1 {
        KeptOne([ACK], got);
      }
      ok := ConfirmAck();
    }

    /** The third message of a read: the count, twice. `answer` is what came of the answer. */
    method SendLength(addr: nat, n: nat) returns (ok: bool, ghost answer: seq<bv8>, ghost got: seq<bool>)
      requires Linked() && Between(State()) && Rests(State(), AtReadLength)
      requires State().readAddr == addr && Readable(addr, n)
      modifies this, dev, dev.flash.cell, dev.flash.mark
      ensures Linked() && Between(State()) && State().flash == old(State().flash)
      ensures Partial(ReadAnswer(old(State().flash), addr, n), answer, got, losses - old(losses))
      ensures ok == (answer != [] && answer[0] == ACK) && (ok ==> inbox == answer[1..])
      ensures ok || got != [] ==> Rests(State(), AtIdle)
    {
      var b := ByteOf(n - 1);
      got := ForwardWrite([b, b], Length(addr, n));
      answer := inbox;
      ok := ConfirmAck();
    }

    // -------------------------------------------------------------- reading a word

    /** One attempt to read a word; only the word itself is ever taken for one. */
    method TryReadWord(addr: nat) returns (r: Attempt)
      requires Linked() && Between(State()) && Readable(addr, 4)
      modifies this, dev, dev.flash.cell, dev.flash.mark
      ensures Linked() && Between(State()) && State().flash == old(State().flash)
      ensures r.Got? ==> r.bytes == Cells(old(State().flash), addr, 4)
      ensures r.Again? ==> 1 + Debt(State()) <= old(Debt(State())) + 2 * (losses - old(losses))
      ensures losses >= old(losses) && (r.Raise? ==> losses > old(losses))
    {
      var ok := SendHead(CMD_READ, addr);
      if !ok {
        return Again;
      }
      ghost var answer, got;
      ok, answer, got := SendLength(addr, 4);
      if !ok {
        AnswerLost(Cells(old(State().flash), addr, 4), answer, got, losses - old(losses));
        return Again;
      }
      ghost var cells := Cells(old(State().flash), addr, 4);
      AnswerRest(cells, Xor(cells), answer, got, losses - old(losses));
      RestRead(cells, inbox, losses - old(losses));
      r := TakeWord();
    }

    /** Four bytes and a check byte out of what has come in. */
    method TakeWord() returns (r: Attempt)
      requires Linked()
      modifies `inbox
      ensures r == WordIn(old(inbox))
    {
      var stmback := Read(4);
      var checkbyte := Read(1);
      if |checkbyte| == 0 {
        return Raise;
      }
      var sum := XorCheckSum(stmback);
      if sum == checkbyte[0] {
        r := if |stmback| == 4 then Got(stmback) else Raise;
      } else {
        r := Again;
      }
    }

    /** Read a word of memory. What is returned is what the flash holds there. */
    method ReadUint32(addr: nat) returns (r: Reading)
      requires Linked() && Between(State()) && Readable(addr, 4)
      modifies this, dev, dev.flash.cell, dev.flash.mark
      ensures Linked() && Between(State()) && State().flash == old(State().flash)
      ensures r.Word? ==> r.bytes == Cells(old(State().flash), addr, 4)
      ensures losses >= old(losses) && (r.NoWord? ==> losses > old(losses) && r.outcome != Finished)
    {
      var failures := 0;
      while true
        invariant Linked() && Between(State()) && State().flash == old(State().flash)
        invariant failures + Debt(State()) <= old(Debt(State())) + 2 * (losses - old(losses))
        invariant failures <= 10 && losses >= old(losses)
        decreases 10 - failures
      {
        var t := TryReadWord(addr);
        match t {
          case Got(bytes) => return Word(bytes);
          case Raise => return NoWord(Raised);
          case Again =>
            failures := failures + 1;
            if failures > 10 {
              return NoWord(Exited);
            }
        }
      }
    }

    // -------------------------------------------------------------- loading

    /**
     * One attempt to write some bytes. The flash is `f` before or after that write, before the
     * attempt as after it; an acknowledged attempt wrote.
     */
    method TryWrite(addr: nat, data: seq<bv8>, ghost f: Nor) returns (ok: bool)
      requires Linked() && Between(State()) && Sendable(addr, data) && Valid(f)
      requires State().flash == f || State().flash == Written(f, addr, data)
      modifies this, dev, dev.flash.cell, dev.flash.mark
      ensures Linked() && Between(State())
      ensures State().flash == f || State().flash == Written(f, addr, data)
      ensures ok ==> State().flash == Written(f, addr, data) && Debt(State()) == 0 && losses == old(losses)
      ensures !ok ==> 1 + Debt(State()) <= old(Debt(State())) + 2 * (losses - old(losses))
    {
      WrittenTwice(f, addr, data);
      ok := SendHead(CMD_WRITE, addr);
      if ok {
        ok := SendData(addr, data);
      }
    }

    /** The state of a load: `p` bytes of the image are in place. */
    ghost predicate Loading(f: Nor, a: nat, image: seq<bv8>, p: nat)
      requires Linked()
      reads this, dev, dev.flash, dev.flash.cell, dev.flash.mark
    {
      && Placed(f, a, image) && p <= |image|
      && Between(State())
      && State().flash == Loaded(f, a, image, p)
    }

    /**
     * One attempt at the chunk [i, j). The flash holds `p` bytes of the image before it, and
     * either as many or all up to `j` after it; an acknowledged attempt wrote the chunk.
     */
    method TryChunk(addr: nat, data: seq<bv8>, ghost f: Nor, ghost a: nat, ghost image: seq<bv8>, ghost i: nat,
                    ghost j: nat, ghost p: nat)
      returns (ok: bool, ghost q: nat)
      requires Linked() && Loading(f, a, image, p) && Chunk(a, image, i, j) && (p == i || p == j)
      requires addr == FLASH_BASE + a + i && data == image[i..j]
      modifies this, dev, dev.flash.cell, dev.flash.mark
      ensures Linked() && (q == i || q == j) && Loading(f, a, image, q)
      ensures ok ==> q == j && Debt(State()) == 0 && losses == old(losses)
      ensures !ok ==> 1 + Debt(State()) <= old(Debt(State())) + 2 * (losses - old(losses))
    {
      ghost var g := Loaded(f, a, image, i);
      ChunkWritten(f, a, image, i, j, i);
      ok := TryWrite(addr, data, g);
      q := if State().flash == g && !ok then i else j;
    }

    /**
     * The load, from any step the device may have been left in. A finished load leaves the whole
     * image in the flash. A load that gives up leaves a whole number of chunks; the network then
     * lost more than ten messages or answers, or ten when the device was not waiting for a command.
     * The image goes to the address asked for, and to the board's own program address for zero;
     * `a` is that place as an offset into the flash. `failed` counts the attempts that failed.
     */
    method LoadBin(image: seq<bv8>, address: nat, appAddress: nat, ghost a: nat)
      returns (done: bool, ghost p: nat, ghost failed: nat)
      requires Linked() && Between(State())
      requires 0x0800_0000 + a == if address == 0 then appAddress else address
      requires Placed(State().flash, a, image) && |image| % 4 == 0
      modifies this, dev, dev.flash.cell, dev.flash.mark
      ensures Linked() && Loading(old(State().flash), a, image, p)
      ensures (p % 256 == 0 || p == |image|) && (done ==> p == |image|)
      ensures failed <= 21 && (done <==> failed <= 20)
      ensures done && address != 0 ==>
                State().flash.cell[address - 0x0800_0000..address - 0x0800_0000 + |image|] == image
      ensures done && address == 0 ==>
                State().flash.cell[appAddress - 0x0800_0000..appAddress - 0x0800_0000 + |image|] == image
      ensures losses >= old(losses) && (!done ==> old(Debt(State())) + 2 * (losses - old(losses)) > 20)
    {
      ghost var f := State().flash;
      var target := address;
      if address == 0 {
        target := appAddress;
      }
      var i, failures := 0, 0;
      p := 0;
      LoadedNothing(f, a, image);
      while i < |image|
        invariant Linked() && i <= |image| && (i % 256 == 0 || i == |image|)
        invariant (p == i || p == NextChunk(image, i)) && (p % 256 == 0 || p == |image|)
        invariant Loading(f, a, image, p)
        invariant failures + Debt(State()) <= old(Debt(State())) + 2 * (losses - old(losses))
        invariant failures <= 20 && losses >= old(losses)
        decreases |image| - i, 20 - failures
      {
        var j := NextChunk(image, i);
        NextIsChunk(a, image, i);
        var ok;
        ok, p := TryChunk(target + i, image[i..j], f, a, image, i, j, p);
        if !ok {
          failures := failures + 1;
          if failures > 20 {
            return false, p, failures;
          }
          continue;
        }
        i := j;
      }
      LoadedAll(f, a, image);
      done, failed := true, failures;
    }

    /** Load one word at any address inside the flash that the device takes a word for. */
    method LoadUint32(val: seq<bv8>, addr: nat) returns (done: bool, ghost failed: nat)
      requires Linked() && Between(State()) && |val| == 4 && Sendable(addr, val)
      modifies this, dev, dev.flash.cell, dev.flash.mark
      ensures Linked() && Between(State())
      ensures State().flash == old(State().flash) || State().flash == Written(old(State().flash), addr, val)
      ensures done ==> State().flash == Written(old(State().flash), addr, val)
      ensures failed <= 11 && (done <==> failed <= 10)
      ensures losses >= old(losses) && (!done ==> old(Debt(State())) + 2 * (losses - old(losses)) > 10)
    {
      ghost var f := State().flash;
      var failures := 0;
      while true
        invariant Linked() && Between(State())
        invariant State().flash == f || State().flash == Written(f, addr, val)
        invariant failures + Debt(State()) <= old(Debt(State())) + 2 * (losses - old(losses))
        invariant failures <= 10 && losses >= old(losses)
        decreases 10 - failures
      {
        done := TryWrite(addr, val, f);
        if done {
          return true, failures;
        }
        failures := failures + 1;
        if failures > 10 {
          return false, failures;
        }
      }
    }
  }

  datatype Attempt = Got(bytes: seq<bv8>) | Again | Raise

  /** How the bytes after the acknowledgement are taken. */
  ghost function WordIn(inbox: seq<bv8>): Attempt {
    var stmback := if |inbox| >= 4 then inbox[..4] else [];
    var rest := if |inbox| >= 4 then inbox[4..] else inbox;
    if rest == [] then Raise
    else if Xor(stmback) != rest[0] then Again
    else if |stmback| == 4 then Got(stmback)
    else Raise
  }

  /** An acknowledgement that does not come means a loss. */
  lemma AnswerLost(cells: seq<bv8>, answer: seq<bv8>, got: seq<bool>, lost: int)
    requires Partial([[ACK], cells, [Xor(cells)]], answer, got, lost) && !(answer != [] && answer[0] == ACK)
    ensures lost >= 1
  {
    if got != [] {
      KeptThree([ACK], cells, [Xor(cells)], got);
      KeptTwo([ACK], cells, got[..2]);
    }
  }

  lemma WholeWord(cells: seq<bv8>)
    requires |cells| == 4
    ensures WordIn(cells + [Xor(cells)]) == Got(cells)
  {
    var inbox := cells + [Xor(cells)];
    assert inbox[..4] == cells && inbox[4..] == [Xor(cells)];
  }

  lemma ShortNoWord(inbox: seq<bv8>)
    requires |inbox| <= 4
    ensures !WordIn(inbox).Got?
  {
  }

  /** What is left of three datagrams: all of it, or less than all. */
  lemma PartsLeft(a: seq<bv8>, b: seq<bv8>, c: seq<bv8>, got: seq<bool>)
    requires |got| == 3 && a != [] && b != [] && c != []
    ensures Missing(got) == 0 ==> Kept([a, b, c], got) == a + b + c
    ensures Missing(got) > 0 ==> |Kept([a, b, c], got)| < |a| + |b| + |c|
  {
    KeptThree(a, b, c, got);
    KeptTwo(a, b, got[..2]);
  }

  lemma AnswerRest(cells: seq<bv8>, x: bv8, answer: seq<bv8>, got: seq<bool>, lost: int)
    requires Partial([[ACK], cells, [x]], answer, got, lost) && answer != [] && |cells| == 4
    ensures lost <= 0 ==> answer[1..] == cells + [x]
    ensures lost > 0 ==> |answer[1..]| <= 4
  {
    PartsLeft([ACK], cells, [x], got);
    if lost <= 0 {
      WholeRest(cells, [x], answer);
    }
  }

  /** Whatever part of the answer came, the word is read right, or a loss is to blame. */
  lemma RestRead(cells: seq<bv8>, rest: seq<bv8>, lost: int)
    requires |cells| == 4
    requires if lost <= 0 then rest == cells + [Xor(cells)] else |rest| <= 4
    ensures WordIn(rest) == Got(cells) || (lost >= 1 && !WordIn(rest).Got?)
  {
    if lost <= 0 {
      WholeWord(cells);
    } else {
      ShortNoWord(rest);
    }
  }

  lemma WholeRest(cells: seq<bv8>, x: seq<bv8>, answer: seq<bv8>)
    requires answer == [ACK] + cells + x
    ensures answer[1..] == cells + x
  {
  }

  /** The three datagrams that answer a read: the acknowledgement, the bytes, their check byte. */
  ghost function ReadAnswer(f: Nor, addr: nat, n: nat): (r: seq<seq<bv8>>)
    requires Valid(f) && Readable(addr, n)
    ensures |r| == 3
  {
    [[ACK], Cells(f, addr, n), [Xor(Cells(f, addr, n))]]
  }

  /** Nothing came because the message was lost, or what came is the answer less what was lost of it. */
  ghost predicate Partial(sent: seq<seq<bv8>>, answer: seq<bv8>, got: seq<bool>, lost: int) {
    if got == [] then answer == [] && lost == 1
    else |got| == |sent| && answer == Kept(sent, got) && lost == Missing(got)
  }
}
