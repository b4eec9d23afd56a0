/**
 * The trace ring between the firmware and a debug probe. The firmware alone writes bytes and
 * moves the write offset; the probe alone moves the read offset, and may do so between any two
 * steps of the firmware. Two ghost histories say what was published and what the probe has read.
 */
module Rtt {
  const NO_BLOCK_SKIP := 0
  const NO_BLOCK_TRIM := 1
  const BLOCK_IF_FIFO_FULL := 2

  /** The terminal numbers as hexadecimal digits in ASCII. */
  const TERMINAL_ID: seq<bv8> := [0x30, 0x31, 0x32, 0x33, 0x34, 0x35, 0x36, 0x37,
                                  0x38, 0x39, 0x41, 0x42, 0x43, 0x44, 0x45, 0x46]

  /** The two bytes that tell the probe to change terminals. */
  function SwitchTo(terminalId: nat): (s: seq<bv8>)
    requires terminalId < 16
    ensures |s| == 2
  {
    [0xFF, TERMINAL_ID[terminalId]]
  }

  /** The number a hexadecimal digit stands for; anything else is no terminal. */
  function TerminalOf(b: bv8): (k: int)
    ensures -1 <= k < 16
  {
    if 0x30 <= b <= 0x39 then (b - 0x30) as int
    else if 0x41 <= b <= 0x46 then (b - 0x37) as int
    else -1
  }

  /**
   * What a probe delivers to terminal `of` that reads `stream` while terminal `now` is on: FF and
   * a hexadecimal digit change terminals, everything else goes to the one that is on.
   */
  ghost function Heard(stream: seq<bv8>, now: int, of: nat): seq<bv8> {
    if stream == [] then []
    else if |stream| >= 2 && stream[0] == 0xFF then
      Heard(stream[2..], if TerminalOf(stream[1]) >= 0 then TerminalOf(stream[1]) else now, of)
    else (if now == of then [stream[0]] else []) + Heard(stream[1..], now, of)
  }

  lemma SwitchHeard(k: nat, now: int, of: nat, more: seq<bv8>)
    requires k < 16
    ensures Heard(SwitchTo(k) + more, now, of) == Heard(more, k, of)
  {
    var stream := SwitchTo(k) + more;
    DigitIsTerminal(k);
    assert stream[2..] == more && stream[0] == 0xFF;
  }

  lemma DigitIsTerminal(k: nat)
    requires k < 16
    ensures TerminalOf(TERMINAL_ID[k]) == k
  {
  }

  lemma {:induction false} TextHeard(text: seq<bv8>, now: nat, of: nat, more: seq<bv8>)
    requires 0xFF !in text
    ensures Heard(text + more, now, of) == (if now == of then text else []) + Heard(more, now, of)
  {
    if text == [] {
      assert text + more == more;
    } else {
      TextHeard(text[1..], now, of, more);
      assert (text + more)[1..] == text[1..] + more;
      assert text == [text[0]] + text[1..];
    }
  }

  /**
   * A framed text is heard on its own terminal and on no other, whatever terminal was on before,
   * and what follows it is heard as on the active terminal.
   */
  lemma FramedHeard(k: nat, text: seq<bv8>, active: nat, now: int, of: nat, more: seq<bv8>)
    requires k < 16 && active < 16 && 0xFF !in text
    ensures Heard(SwitchTo(k) + text + SwitchTo(active) + more, now, of)
            == (if of == k then text else []) + Heard(more, active, of)
  {
    SwitchHeard(k, now, of, text + (SwitchTo(active) + more));
    TextHeard(text, k, of, SwitchTo(active) + more);
    SwitchHeard(active, k, of, more);
    assert SwitchTo(k) + text + SwitchTo(active) + more == SwitchTo(k) + (text + (SwitchTo(active) + more));
  }

  // ---------------------------------------------------------------- a ring as two offsets

  /** The bytes from the read offset up to the write offset. */
  ghost function Span(s: seq<bv8>, rd: nat, wr: nat): (r: seq<bv8>)
    requires rd < |s| && wr < |s|
    ensures |r| < |s|
  {
    if rd <= wr then s[rd..wr] else s[rd..] + s[..wr]
  }

  /** Room between the write offset and the read offset, one cell left free. */
  function Space(m: nat, rd: nat, wr: nat): (n: nat)
    requires rd < m && wr < m
    ensures n < m
  {
    if rd <= wr then m - 1 - wr + rd else rd - wr - 1
  }

  /** The offset `k` cells further on. */
  function Onward(m: nat, off: nat, k: nat): (r: nat)
    requires off < m && k <= m
    ensures r < m
  {
    if off + k < m then off + k else off + k - m
  }

  lemma SpaceLeft(s: seq<bv8>, rd: nat, wr: nat)
    requires rd < |s| && wr < |s|
    ensures Space(|s|, rd, wr) + |Span(s, rd, wr)| == |s| - 1
  {
  }

  /** A cell in the room is none of the unread ones. */
  lemma WriteOutside(s: seq<bv8>, rd: nat, wr: nat, k: nat, b: bv8)
    requires rd < |s| && wr < |s| && k < Space(|s|, rd, wr)
    ensures Span(s[Onward(|s|, wr, k) := b], rd, wr) == Span(s, rd, wr)
  {
  }

  /** Bytes written into the room join the unread ones when the write offset moves past them. */
  lemma Publish(s: seq<bv8>, rd: nat, wr: nat, data: seq<bv8>)
    requires rd < |s| && wr < |s| && |data| <= Space(|s|, rd, wr)
    requires forall k :: 0 <= k < |data| ==> s[Onward(|s|, wr, k)] == data[k]
    ensures Span(s, rd, Onward(|s|, wr, |data|)) == Span(s, rd, wr) + data
  {
  }

  lemma Consume(s: seq<bv8>, rd: nat, wr: nat, n: nat)
    requires rd < |s| && wr < |s| && n <= |Span(s, rd, wr)|
    ensures Span(s, Onward(|s|, rd, n), wr) == Span(s, rd, wr)[n..]
    ensures Space(|s|, Onward(|s|, rd, n), wr) == Space(|s|, rd, wr) + n
  {
  }

  class UpRing {
    const buf: array<bv8>
    var rdOff: nat
    var wrOff: nat
    var flags: nat
    var activeTerminal: nat
    ghost var published: seq<bv8>
    ghost var read: seq<bv8>

    constructor (buf: array<bv8>)
      requires buf.Length > 0
      ensures this.buf == buf && Valid() && published == [] && flags == NO_BLOCK_SKIP && activeTerminal == 0
    {
      this.buf := buf;
      rdOff, wrOff, flags, activeTerminal := 0, 0, NO_BLOCK_SKIP, 0;
      published, read := [], [];
    }

    /** What the probe has read, followed by what lies in the ring, is what was published. */
    ghost predicate Valid()
      reads this, buf
    {
      && rdOff < buf.Length && wrOff < buf.Length
      && activeTerminal < 16
      && published == read + Unread()
    }

    ghost function Unread(): (s: seq<bv8>)
      requires rdOff < buf.Length && wrOff < buf.Length
      reads this, buf
    {
      Span(buf[..], rdOff, wrOff)
    }

    ghost function Room(): nat
      requires rdOff < buf.Length && wrOff < buf.Length
      reads this, buf
    {
      Space(buf.Length, rdOff, wrOff)
    }

    /** The probe takes some bytes, or none. */
    method HostReads(atLeast: nat)
      requires Valid() && atLeast <= |Unread()|
      modifies `rdOff, `read
      ensures Valid() && Room() >= old(Room()) + atLeast
      ensures old(read) <= read
    {
      var unread := if rdOff <= wrOff then wrOff - rdOff else buf.Length - rdOff + wrOff;
      var n: nat := *;
      n := if n < atLeast then atLeast else if n > unread then unread else n;
      Consume(buf[..], rdOff, wrOff, n);
      read := read + Unread()[..n];
      rdOff := Onward(buf.Length, rdOff, n);
    }

    method GetAvailWriteSpace() returns (r: nat)
      requires Valid()
      modifies `rdOff, `read
      ensures Valid() && old(read) <= read
      ensures old(Room()) <= r <= Room() && r < buf.Length
    {
      HostReads(0);
      var rd := rdOff;
      HostReads(0);
      r := Space(buf.Length, rd, wrOff);
    }

    /** The first `n` cells behind the write offset hold these bytes. */
    ghost predicate Filled(data: seq<bv8>)
      requires wrOff < buf.Length
      reads this, buf
    {
      && |data| <= buf.Length
      && forall k :: 0 <= k < |data| ==> buf[Onward(buf.Length, wrOff, k)] == data[k]
    }

    /** One byte into the room; the probe may read before and after. */
    method PutByte(at: nat, b: bv8, ghost done: seq<bv8>)
      requires Valid() && |done| < Room() && Filled(done) && at == Onward(buf.Length, wrOff, |done|)
      modifies buf, `rdOff, `read
      ensures Valid() && Room() >= old(Room()) && old(read) <= read
      ensures Filled(done + [b])
    {
      WriteOutside(buf[..], rdOff, wrOff, |done|, b);
      ghost var was := buf[..];
      buf[at] := b;
      assert buf[..] == was[at := b];
      HostReads(0);
    }

    /** Copy behind what is there already; no byte copied lands on an unread one. */
    method MemCpy(off: nat, data: seq<bv8>, ghost done: seq<bv8>)
      requires Valid() && |done| + |data| <= Room() && Filled(done)
      requires |data| > 0 ==> off == Onward(buf.Length, wrOff, |done|)
      requires off + |data| <= buf.Length
      modifies buf, `rdOff, `read
      ensures Valid() && Room() >= old(Room()) && old(read) <= read
      ensures Filled(done + data)
    {
      var i := 0;
      assert done + data[..0] == done;
      while i < |data|
        invariant 0 <= i <= |data|
        invariant Valid() && Room() >= old(Room()) && old(read) <= read
        invariant Filled(done + data[..i])
      {
        assert done + data[..i + 1] == done + data[..i] + [data[i]];
        PutByte(off + i, data[i], done + data[..i]);
        i := i + 1;
      }
      assert data[..i] == data;
    }

    /** Move the write offset past bytes already in place. */
    method SetWrOff(wr: nat, ghost data: seq<bv8>)
      requires Valid() && |data| <= Room() && Filled(data) && wr == Onward(buf.Length, wrOff, |data|)
      modifies `wrOff, `rdOff, `read, `published
      ensures Valid() && old(read) <= read && published == old(published) + data
      ensures Room() + |data| >= old(Room())
    {
      HostReads(0);
      Publish(buf[..], rdOff, wrOff, data);
      SpaceLeft(buf[..], rdOff, wrOff);
      SpaceLeft(buf[..], rdOff, wr);
      published := published + data;
      wrOff := wr;
    }

    /** Copy what is known to fit before the end of the buffer, and publish it. */
    method WriteChunk(data: seq<bv8>)
      requires Valid() && |data| <= Room() && wrOff + |data| <= buf.Length
      modifies buf, `wrOff, `rdOff, `read, `published
      ensures Valid() && old(read) <= read
      ensures published == old(published) + data && Room() + |data| >= old(Room())
    {
      MemCpy(wrOff, data, []);
      assert [] + data == data;
      var wr := wrOff + |data|;
      if wr == buf.Length {
        wr := 0;
      }
      SetWrOff(wr, data);
    }

    /** One round of the blocking write: what fits before the end of the buffer and the read offset. */
    method WriteRound(data: seq<bv8>) returns (n: nat)
      requires Valid()
      modifies buf, `wrOff, `rdOff, `read, `published
      ensures Valid() && old(read) <= read
      ensures n <= |data| && published == old(published) + data[..n]
      ensures Room() + n >= old(Room())
      ensures n == 0 ==> data == [] || old(Room()) == 0
    {
      var avail := GetAvailWriteSpace();
      n := if avail < buf.Length - wrOff then avail else buf.Length - wrOff;
      n := if n < |data| then n else |data|;
      WriteChunk(data[..n]);
    }

    /** Rounds on a full ring write nothing, until the probe reads: `w` says whether it had to. */
    method SpinWhileFull() returns (ghost w: nat)
      requires Valid() && buf.Length > 1
      modifies `rdOff, `read
      ensures Valid() && old(read) <= read && Room() >= old(Room())
      ensures Room() > 0 && (w == 0 <==> old(Room()) > 0)
    {
      w := 0;
      if Space(buf.Length, rdOff, wrOff) == 0 {
        SpaceLeft(buf[..], rdOff, wrOff);
        HostReads(1);
        w := 1;
      }
    }

    /** A round that writes something, after as many as it takes to find room. */
    method WriteMore(data: seq<bv8>, written: nat) returns (n: nat, ghost w: nat)
      requires Valid() && buf.Length > 1 && written < |data|
      modifies buf, `wrOff, `rdOff, `read, `published
      ensures Valid() && old(read) <= read
      ensures written < n <= |data|
      ensures published == old(published) + data[written..n]
      ensures Room() + n >= old(Room()) + written
      ensures old(Room()) > 0 ==> w == 0
    {
      w := SpinWhileFull();
      n := WriteRound(data[written..]);
      n := written + n;
      assert data[written..][..n - written] == data[written..n];
    }

    /**
     * Write everything. `waits` counts how often the probe had to read before the next byte could
     * be written; with room for all the data from the start it never has to.
     */
    method WriteBlocking(data: seq<bv8>) returns (written: nat, ghost waits: nat)
      requires Valid() && (data != [] ==> buf.Length > 1)
      modifies buf, `wrOff, `rdOff, `read, `published
      ensures Valid() && old(read) <= read
      ensures written == |data| && published == old(published) + data
      ensures |data| <= old(Room()) ==> waits == 0 && Room() + |data| >= old(Room())
    {
      ghost var room, before := Room(), published;
      waits := 0;
      written := WriteRound(data);
      while written < |data|
        invariant Valid() && old(read) <= read
        invariant Out(before, published, data, written)
        invariant |data| <= room ==> waits == 0 && Room() + written >= room
      {
        ghost var w;
        OutMore(before, published, data, written);
        written, w := WriteMore(data, written);
        waits := waits + w;
      }
      assert data[..written] == data;
    }

    /** One part up to the end of the buffer, one on from its start, published at once. */
    method WriteParts(first: seq<bv8>, rest: seq<bv8>)
      requires Valid() && wrOff + |first| == buf.Length && |first| + |rest| <= Room()
      modifies buf, `wrOff, `rdOff, `read, `published
      ensures Valid() && old(read) <= read
      ensures published == old(published) + (first + rest) && Room() + |first| + |rest| >= old(Room())
    {
      MemCpy(wrOff, first, []);
      assert [] + first == first;
      MemCpy(0, rest, first);
      SetWrOff(|rest|, first + rest);
    }

    /** Copy up to the end of the buffer and on from its start. */
    method WriteAcross(data: seq<bv8>)
      requires Valid() && buf.Length - wrOff <= |data| <= Room()
      modifies buf, `wrOff, `rdOff, `read, `published
      ensures Valid() && old(read) <= read
      ensures published == old(published) + data && Room() + |data| >= old(Room())
    {
      var rem := buf.Length - wrOff;
      assert data[..rem] + data[rem..] == data;
      WriteParts(data[..rem], data[rem..]);
    }

    /** Write without looking at the read offset: the caller knows there is room. */
    method WriteNoCheck(data: seq<bv8>)
      requires Valid() && |data| <= Room()
      modifies buf, `wrOff, `rdOff, `read, `published
      ensures Valid() && old(read) <= read
      ensures published == old(published) + data && Room() + |data| >= old(Room())
    {
      if buf.Length - wrOff > |data| {
        WriteChunk(data);
      } else {
        WriteAcross(data);
      }
    }

    /** Write all of the data or none of it, the likely case first. */
    method WriteSkipNoLock(data: seq<bv8>) returns (ok: nat)
      requires Valid() && data != []
      modifies buf, `wrOff, `rdOff, `read, `published
      ensures Valid() && old(read) <= read && ok <= 1
      ensures published == if ok == 1 then old(published) + data else old(published)
      ensures old(Room()) >= |data| ==> ok == 1
    {
      HostReads(0);
      var rd := rdOff;
      HostReads(0);
      ok := 1;
      if rd <= wrOff {
        var avail := buf.Length - 1 - wrOff;
        if avail >= |data| {
          WriteChunk(data);
        } else if avail + rd >= |data| {
          WriteNoCheck(data);
        } else {
          ok := 0;
        }
      } else if rd - wrOff - 1 >= |data| {
        WriteChunk(data);
      } else {
        ok := 0;
      }
    }

    method PostTerminalSwitch(terminalId: nat) returns (ghost waits: nat)
      requires Valid() && terminalId < 16 && buf.Length > 1
      modifies buf, `wrOff, `rdOff, `read, `published
      ensures Valid() && old(read) <= read
      ensures published == old(published) + SwitchTo(terminalId)
      ensures 2 <= old(Room()) ==> waits == 0 && Room() + 2 >= old(Room())
    {
      var ac := [0xFF, TERMINAL_ID[terminalId]];
      var n;
      n, waits := WriteBlocking(ac);
    }

    /** Switch, text, switch back. */
    method Framed(terminalId: nat, text: seq<bv8>) returns (status: nat, ghost waits: nat)
      requires Valid() && terminalId < 16 && buf.Length > 1
      modifies buf, `wrOff, `rdOff, `read, `published
      ensures Valid() && old(read) <= read && status == |text|
      ensures published == old(published) + SwitchTo(terminalId) + text + SwitchTo(activeTerminal)
      ensures |text| + 4 <= old(Room()) ==> waits == 0
    {
      ghost var w0 := PostTerminalSwitch(terminalId);
      ghost var w1;
      status, w1 := WriteBlocking(text);
      ghost var w2 := PostTerminalSwitch(activeTerminal);
      waits := w0 + w1 + w2;
    }

    /**
     * Text on another terminal, when `sent` framed by two switches. In the modes that do not
     * block it is sent whole, or cut to the room there is, or not at all; and no byte of it ever
     * waits for the probe.
     */
    method TerminalOut(terminalId: nat, s: seq<bv8>) returns (status: int, ghost sent: bool, ghost waits: nat)
      requires Valid() && buf.Length > 1
      modifies buf, `wrOff, `rdOff, `read, `published
      ensures Valid() && old(read) <= read
      ensures sent ==> terminalId < 16 && 0 <= status <= |s|
      ensures published == if sent then old(published) + SwitchTo(terminalId) + s[..status] + SwitchTo(activeTerminal)
                           else old(published)
      ensures terminalId < 16 ==> Chosen(flags % 4, old(Room()), |s|, status, sent)
      ensures terminalId >= 16 ==> !sent && status == -1
      ensures flags % 4 == 0 || flags % 4 == 1 ==> waits == 0
    {
      status, sent, waits := -1, false, 0;
      if terminalId >= 16 {
        return;
      }
      var avail := GetAvailWriteSpace();
      if flags % 4 == NO_BLOCK_SKIP {
        if avail < |s| + 4 {
          status := 0;
        } else {
          status, waits := Framed(terminalId, s);
          sent := true;
          assert s[..status] == s;
        }
      } else if flags % 4 == NO_BLOCK_TRIM {
        if avail >= 4 {
          var n := if |s| < avail - 4 then |s| else avail - 4;
          status, waits := Framed(terminalId, s[..n]);
          sent := true;
        }
      } else if flags % 4 == BLOCK_IF_FIFO_FULL {
        status, waits := Framed(terminalId, s);
        sent := true;
        assert s[..status] == s;
      }
    }

    /** Make a terminal the active one. */
    method SetTerminal(terminalId: nat) returns (r: int, ghost waits: nat)
      requires Valid() && buf.Length > 1
      modifies buf, `wrOff, `rdOff, `read, `published, `activeTerminal
      ensures Valid() && old(read) <= read && (r == 0 || r == -1)
      ensures r == 0 ==> terminalId < 16 && activeTerminal == terminalId &&
                         published == old(published) + SwitchTo(terminalId)
      ensures r == -1 ==> activeTerminal == old(activeTerminal) && published == old(published)
      ensures r == -1 ==> terminalId >= 16 || (old(Room()) < 2 && flags % 4 != 2)
      ensures flags % 4 != 2 ==> waits == 0
    {
      r, waits := 0, 0;
      if terminalId >= 16 {
        return -1, 0;
      }
      if flags % 4 == BLOCK_IF_FIFO_FULL {
        activeTerminal := terminalId;
        waits := PostTerminalSwitch(terminalId);
      } else {
        var avail := GetAvailWriteSpace();
        if avail >= 2 {
          activeTerminal := terminalId;
          WriteNoCheck(SwitchTo(terminalId));
        } else {
          r := -1;
        }
      }
    }

    /** Write by the channel's mode; `status` counts the bytes that went out. */
    method WriteNoLock(data: seq<bv8>) returns (status: nat, ghost waits: nat)
      requires Valid() && buf.Length > 1
      modifies buf, `wrOff, `rdOff, `read, `published
      ensures Valid() && old(read) <= read
      ensures status <= |data| && published == old(published) + data[..status]
      ensures flags == 0 ==> status == |data| || (status == 0 && old(Room()) < |data|)
      ensures flags == 1 ==> status == |data| || status >= old(Room())
      ensures flags == 2 ==> status == |data|
      ensures flags != 2 ==> waits == 0
    {
      status, waits := 0, 0;
      if flags == NO_BLOCK_SKIP {
        var avail := GetAvailWriteSpace();
        if avail >= |data| {
          status := |data|;
          WriteNoCheck(data);
        }
      } else if flags == NO_BLOCK_TRIM {
        var avail := GetAvailWriteSpace();
        status := if avail < |data| then avail else |data|;
        WriteNoCheck(data[..status]);
      } else if flags == BLOCK_IF_FIFO_FULL {
        status, waits := WriteBlocking(data);
      }
      assert data[..|data|] == data && data[..0] == [];
    }
  }

  /** How much of a text of `len` bytes is sent by mode (0 skip, 1 trim, 2 block) when the ring has `room`. */
  ghost predicate Chosen(mode: nat, room: nat, len: nat, status: int, sent: bool) {
    && (mode == 0 ==> if sent then status == len else status == 0 && room < len + 4)
    && (mode == 1 ==> if sent then status == len || status + 4 >= room else status == -1 && room < 4)
    && (mode == 2 ==> sent && status == len)
    && (mode > 2 ==> !sent && status == -1)
  }

  /** Of `data` the first `n` bytes were published after `before`. */
  ghost predicate Out(before: seq<bv8>, now: seq<bv8>, data: seq<bv8>, n: nat) {
    n <= |data| && now == before + data[..n]
  }

  lemma OutMore(before: seq<bv8>, now: seq<bv8>, data: seq<bv8>, n: nat)
    requires Out(before, now, data, n)
    ensures forall m: nat :: n <= m <= |data| ==> Out(before, now + data[n..m], data, m)
  {
    forall m: nat | n <= m <= |data|
      ensures Out(before, now + data[n..m], data, m)
    {
      assert data[..n] + data[n..m] == data[..m];
    }
  }

  /**
   * The ring the other way: the probe writes, and may do so between any two steps of the
   * firmware that reads. `delivered` is what the firmware has read so far, `sent` what the probe
   * has put in.
   */
  class DownRing {
    const buf: array<bv8>
    var rdOff: nat
    var wrOff: nat
    ghost var sent: seq<bv8>
    ghost var delivered: seq<bv8>

    constructor (buf: array<bv8>)
      requires buf.Length > 0
      ensures this.buf == buf && Valid() && sent == []
    {
      this.buf := buf;
      rdOff, wrOff := 0, 0;
      sent, delivered := [], [];
    }

    ghost predicate Valid()
      reads this, buf
    {
      && rdOff < buf.Length && wrOff < buf.Length
      && sent == delivered + Unread()
    }

    ghost function Unread(): (s: seq<bv8>)
      requires rdOff < buf.Length && wrOff < buf.Length
      reads this, buf
    {
      Span(buf[..], rdOff, wrOff)
    }

    /** The probe puts one byte into the room. */
    method HostSendsByte(b: bv8)
      requires Valid() && Space(buf.Length, rdOff, wrOff) > 0
      modifies buf, `wrOff, `sent
      ensures Valid() && sent == old(sent) + [b] && Unread() == old(Unread()) + [b]
    {
      ghost var was := buf[..];
      WriteOutside(was, rdOff, wrOff, 0, b);
      buf[wrOff] := b;
      assert buf[..] == was[wrOff := b];
      Publish(buf[..], rdOff, wrOff, [b]);
      sent := sent + [b];
      wrOff := Onward(buf.Length, wrOff, 1);
    }

    /** The probe sends some bytes, or none. */
    method HostSends()
      requires Valid()
      modifies buf, `wrOff, `sent
      ensures Valid() && old(sent) <= sent && old(Unread()) <= Unread()
    {
      var n: nat := *;
      var i := 0;
      while i < n && Space(buf.Length, rdOff, wrOff) > 0
        invariant Valid() && old(sent) <= sent && old(Unread()) <= Unread()
      {
        var b: bv8 := *;
        HostSendsByte(b);
        i := i + 1;
      }
    }

    /** The bytes from `rd` for `n` cells, not across the end of the buffer; the probe goes on sending. */
    method CopyOut(rd: nat, n: nat, ghost done: seq<bv8>) returns (out: seq<bv8>)
      requires Valid() && |done| + n <= |Unread()|
      requires n > 0 ==> rd == Onward(buf.Length, rdOff, |done|)
      requires rd + n <= buf.Length && done <= Unread()
      modifies buf, `wrOff, `sent
      ensures Valid() && old(sent) <= sent && old(Unread()) <= Unread()
      ensures |out| == n && done + out <= Unread()
    {
      out := buf[rd..rd + n];
      Stretch(buf[..], rdOff, wrOff, |done|, rd, n);
      HostSends();
    }

    /** What can be read before the end of the buffer, when the bytes seen unread go across it. */
    method ReadToEnd(size: nat, wr: nat, ghost seen: nat) returns (data: seq<bv8>, rd: nat)
      requires Valid() && wr < buf.Length && Reaches(buf.Length, rdOff, wr, seen) && seen <= |Unread()|
      modifies buf, `wrOff, `sent
      ensures Valid() && old(sent) <= sent && old(Unread()) <= Unread()
      ensures |data| <= size && |data| <= seen && data <= Unread()
      ensures rd == Onward(buf.Length, rdOff, |data|)
      ensures |data| == size || (rd <= wr && wr - rd == seen - |data|)
    {
      rd := rdOff;
      data := [];
      if rd > wr {
        var n := if buf.Length - rd < size then buf.Length - rd else size;
        data := CopyOut(rd, n, []);
        assert [] + data == data;
        rd := rd + n;
        if rd == buf.Length {
          rd := 0;
        }
      }
    }

    /** Read up to `size` of the bytes seen unread: first to the end of the buffer, then on from its start. */
    method ReadNoLock(size: nat) returns (data: seq<bv8>)
      requires Valid()
      modifies buf, `rdOff, `wrOff, `sent, `delivered
      ensures Valid() && old(sent) <= sent && delivered == old(delivered) + data
      ensures |data| <= size && (|data| == size || |data| >= |old(Unread())|)
    {
      HostSends();
      var wr := wrOff;
      ghost var seen := |Unread()|;
      HostSends();
      var rd;
      data, rd := ReadToEnd(size, wr, seen);
      if |data| < size && wr - rd > 0 {
        var more := if wr - rd < size - |data| then wr - rd else size - |data|;
        var part := CopyOut(rd, more, data);
        data := data + part;
        rd := rd + more;
      }
      Finish(data, rd);
    }

    method Finish(data: seq<bv8>, rd: nat)
      requires Valid() && data <= Unread() && rd == Onward(buf.Length, rdOff, |data|)
      modifies `rdOff, `delivered
      ensures Valid() && delivered == old(delivered) + data
    {
      Consume(buf[..], rdOff, wrOff, |data|);
      delivered := delivered + data;
      if |data| > 0 {
        rdOff := rd;
      }
    }
  }

  /** The write offset lies `n` cells beyond the read offset. */
  ghost predicate Reaches(m: nat, rd: nat, wr: nat, n: nat)
    requires rd < m && wr < m
  {
    n == if rd <= wr then wr - rd else m - rd + wr
  }

  /** The cells at the place of the `k`-th unread byte are the unread bytes from there on. */
  lemma Stretch(s: seq<bv8>, rd: nat, wr: nat, k: nat, off: nat, n: nat)
    requires rd < |s| && wr < |s| && k + n <= |Span(s, rd, wr)| && off + n <= |s|
    requires n > 0 ==> off == Onward(|s|, rd, k)
    ensures Span(s, rd, wr)[..k] + s[off..off + n] == Span(s, rd, wr)[..k + n]
  {
  }
}
