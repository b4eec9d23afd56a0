/**
 * The byte ring queue under the sockets: an array with a front and a back position, one cell
 * always left free. Every operation is proved against the plain sequence of the bytes queued.
 * The front position may rest one past the end of the array.
 */
module RingQue {
  /** The positions [lo, hi) of a sequence in reverse order, the others as they are. */
  function Turned(s: seq<bv8>, lo: nat, hi: nat): (r: seq<bv8>)
    requires lo <= hi <= |s|
    ensures |r| == |s|
  {
    seq(|s|, k requires 0 <= k < |s| => if lo <= k < hi then s[lo + hi - 1 - k] else s[k])
  }

  /** Three reversals rotate. */
  lemma ThreeReversals(s: seq<bv8>, f: nat)
    requires f <= |s|
    ensures Turned(Turned(Turned(s, 0, f), f, |s|), 0, |s|) == s[f..] + s[..f]
  {
  }

  /** The cells from the front position to the back position, around the end if need be. */
  function Queued(s: seq<bv8>, front: nat, back: nat): (r: seq<bv8>)
    requires front <= |s| && back <= |s|
    ensures |r| == if front <= back then back - front else back - front + |s|
  {
    if front <= back then s[front..back] else s[front..] + s[..back]
  }

  /** The positions from `at` on overwritten. */
  function Put(s: seq<bv8>, at: nat, buf: seq<bv8>): (r: seq<bv8>)
    requires at + |buf| <= |s|
    ensures |r| == |s|
  {
    s[..at] + buf + s[at + |buf|..]
  }

  /** What a block push takes of a buffer. */
  function Fitting(n: nat, room: nat): nat {
    if n > room then room else n
  }

  /** It is the largest count that keeps to both bounds. */
  lemma FittingIsLargest(n: nat, room: nat, k: nat)
    ensures Fitting(n, room) <= n && Fitting(n, room) <= room
    ensures k <= n && k <= room ==> k <= Fitting(n, room)
  {
  }

  class RingQue {
    const mem: array<bv8>
    var back: nat
    var front: nat

    constructor (mem: array<bv8>)
      requires mem.Length > 0
      modifies mem
      ensures this.mem == mem && Valid() && Contents() == [] && front == back == 0
    {
      this.mem := mem;
      back, front := 0, 0;
      new;
      forall k | 0 <= k < mem.Length {
        mem[k] := 0;
      }
    }

    ghost predicate Valid()
      reads this
    {
      && mem.Length > 0
      && front <= mem.Length
      && (back < mem.Length || back == front)
    }

    /** The queued bytes, oldest first. */
    ghost function Contents(): (s: seq<bv8>)
      requires Valid()
      reads this, mem
    {
      Queued(mem[..], front, back)
    }

    function Capacity(): nat
      requires Valid()
      reads this
    {
      mem.Length - 1
    }

    /** The number of queued bytes, from the two positions alone. */
    function ElemsInQue(): (n: nat)
      requires Valid()
      reads this, mem
      ensures n == |Contents()| <= mem.Length - 1
    {
      if back < front then back - front + mem.Length else back - front
    }

    function EmptyElemsInQue(): (n: nat)
      requires Valid()
      reads this, mem
      ensures n + |Contents()| == mem.Length - 1
    {
      mem.Length - 1 - ElemsInQue()
    }

    /** The two positions meet: the queue is empty, and an empty queue is seen, but for one state. */
    method Empty() returns (b: bool)
      requires Valid()
      ensures b ==> Contents() == []
      ensures Contents() == [] ==> (b <==> !(front == mem.Length && back == 0))
    {
      b := back == front;
    }

    method Clear()
      requires Valid()
      modifies this
      ensures Valid() && Contents() == []
    {
      back := front;
    }

    method Push(value: bv8) returns (ok: bool)
      requires Valid() && back < mem.Length
      modifies this, mem
      ensures Valid() && back < mem.Length && front == old(front)
      ensures ok == (|old(Contents())| < mem.Length - 1)
      ensures Contents() == if ok then old(Contents()) + [value] else old(Contents())
    {
      if EmptyElemsInQue() == 0 {
        return false;
      }
      mem[back] := value;
      back := back + 1;
      if back >= mem.Length {
        back := back - mem.Length;
      }
      ok := true;
    }

    method Pop() returns (ok: bool)
      requires Valid()
      modifies this
      ensures Valid() && (ok ==> front < mem.Length) && back == old(back)
      ensures ok == (old(Contents()) != [])
      ensures Contents() == if ok then old(Contents())[1..] else []
    {
      if ElemsInQue() == 0 {
        return false;
      }
      front := front + 1;
      if front >= mem.Length {
        front := front - mem.Length;
      }
      ok := true;
    }

    method MemCpy(at: nat, buf: seq<bv8>)
      requires at + |buf| <= mem.Length
      modifies mem
      ensures mem[..] == Put(old(mem[..]), at, buf)
    {
      forall k | 0 <= k < |buf| {
        mem[at + k] := buf[k];
      }
    }

    /** Behind the queue up to the end of the array, and on from its start. */
    method PushAround(buf: seq<bv8>)
      requires Valid() && front <= back && mem.Length - back <= |buf| <= Capacity() - |Contents()|
      modifies this, mem
      ensures Valid() && front == old(front) && (old(back) < mem.Length ==> back < mem.Length)
      ensures Contents() == old(Contents()) + buf
    {
      var toEnd := mem.Length - back;
      Around(mem[..], front, back, buf);
      MemCpy(back, buf[..toEnd]);
      MemCpy(0, buf[toEnd..]);
      back := |buf| - toEnd;
    }

    method PushBehind(buf: seq<bv8>)
      requires Valid() && (front <= back ==> back + |buf| < mem.Length) && |buf| <= Capacity() - |Contents()|
      modifies this, mem
      ensures Valid() && front == old(front) && (old(back) < mem.Length ==> back < mem.Length)
      ensures Contents() == old(Contents()) + buf
    {
      Behind(mem[..], front, back, buf);
      MemCpy(back, buf);
      back := back + |buf|;
    }

    /** Append as much of the buffer as there is room for. */
    method PushArray(buf: seq<bv8>) returns (len: nat)
      requires Valid()
      modifies this, mem
      ensures Valid() && front == old(front) && (old(back) < mem.Length ==> back < mem.Length)
      ensures len == Fitting(|buf|, mem.Length - 1 - |old(Contents())|)
      ensures Contents() == old(Contents()) + buf[..len]
    {
      var room := EmptyElemsInQue();
      if room == 0 {
        return 0;
      }
      len := Fitting(|buf|, room);
      if front <= back {
        if len >= mem.Length - back {
          PushAround(buf[..len]);
        } else {
          PushBehind(buf[..len]);
        }
      } else {
        PushBehind(buf[..len]);
      }
    }

    /** Take as many as asked for, or all there are. */
    method PopArray(n: nat) returns (buf: seq<bv8>)
      requires Valid()
      modifies this
      ensures Valid() && back == old(back)
      ensures front == old(front) + |buf| - if old(front) + |buf| > mem.Length then mem.Length else 0
      ensures buf == old(Contents())[..Fitting(n, |old(Contents())|)]
      ensures Contents() == old(Contents())[|buf|..]
    {
      var elems := ElemsInQue();
      if elems == 0 {
        return [];
      }
      var len := Fitting(n, elems);
      Front(mem[..], front, back, len);
      if front <= back {
        buf := mem[front..front + len];
        front := front + len;
      } else {
        var toEnd := mem.Length - front;
        if len > toEnd {
          buf := mem[front..] + mem[..len - toEnd];
          front := len - toEnd;
        } else {
          buf := mem[front..front + len];
          front := front + len;
        }
      }
    }

    method Swap(i: nat, j: nat)
      requires i < mem.Length && j < mem.Length
      modifies mem
      ensures mem[..] == old(mem[..])[i := old(mem[j])][j := old(mem[i])]
    {
      mem[i], mem[j] := mem[j], mem[i];
    }

    method SwapEnds(lo: nat, hi: nat, ghost s: seq<bv8>, ghost l: nat, ghost h: nat)
      requires l <= lo < hi <= h < mem.Length && lo + hi == l + h && |s| == mem.Length
      requires mem[..] == PartTurned(s, l, h, lo)
      modifies mem
      ensures mem[..] == PartTurned(s, l, h, lo + 1)
    {
      ghost var r := mem[..];
      PartTurnedMore(s, l, h, lo);
      Swap(lo, hi);
      assert mem[..] == r[lo := r[hi]][hi := r[lo]];
    }

    /** Reverse the cells between two positions, both included and in either order. */
    method Reverse(first: nat, last: nat)
      requires first < mem.Length && last < mem.Length
      modifies mem
      ensures mem[..] == if first <= last then Turned(old(mem[..]), first, last + 1)
                         else Turned(old(mem[..]), last, first + 1)
    {
      var lo, hi := first, last;
      if lo > hi {
        lo, hi := hi, lo;
      }
      ghost var s, l, h := mem[..], lo, hi;
      PartTurnedNone(s, l, h);
      while lo < hi
        invariant l <= lo <= hi + 1 && lo + hi == l + h && hi <= h < mem.Length
        invariant mem[..] == PartTurned(s, l, h, lo)
      {
        SwapEnds(lo, hi, s, l, h);
        lo := lo + 1;
        hi := hi - 1;
      }
      PartTurnedAll(s, l, h, lo);
    }

    /** Bring the cells from position `f` on to the start of the array, the rest behind them. */
    method Rotate(f: nat)
      requires 0 < f < mem.Length
      modifies mem
      ensures mem[..] == old(mem[f..]) + old(mem[..f])
    {
      ghost var s, n := mem[..], mem.Length;
      ghost var t := Turned(s, 0, f);
      ghost var u := Turned(t, f, n);
      Reverse(0, f - 1);
      assert mem[..] == t;
      Reverse(f, mem.Length - 1);
      assert mem[..] == u;
      Reverse(0, mem.Length - 1);
      assert mem[..] == Turned(u, 0, n);
      ThreeReversals(s, f);
    }

    method AlignWrapped()
      requires Valid() && back < front < mem.Length
      modifies this, mem
      ensures Valid() && front == 0 && back < mem.Length
      ensures Contents() == old(Contents())
    {
      var elems := ElemsInQue();
      Rotate(front);
      front := 0;
      back := elems;
    }

    method AlignStraight()
      requires Valid() && front < back
      modifies this, mem
      ensures Valid() && front == 0 && back < mem.Length
      ensures Contents() == old(Contents())
    {
      var elems := ElemsInQue();
      MemCpy(0, mem[front..front + elems]);
      front := 0;
      back := elems;
    }

    /** Make the queue start at the array's start, without changing it. */
    method AlignQue2Array()
      requires Valid() && (front < mem.Length || Contents() == [])
      modifies this, mem
      ensures Valid() && front == 0 && back < mem.Length
      ensures Contents() == old(Contents())
    {
      if ElemsInQue() == 0 {
        front, back := 0, 0;
        return;
      }
      if front == 0 {
        return;
      }
      if front > back {
        AlignWrapped();
      } else {
        AlignStraight();
      }
    }

    /** The back position, with all the free room behind it in one piece. */
    method BackPtr() returns (p: nat)
      requires Valid()
      modifies this, mem
      ensures Valid() && Contents() == old(Contents()) && p == back
      ensures p + (mem.Length - 1 - |Contents()|) <= mem.Length
      ensures front <= p ==> front == 0
    {
      if front == 0 || front > back {
        return back;
      }
      AlignQue2Array();
      p := back;
    }

    /** The front position, with the whole queue behind it in one piece. */
    method FrontPtr() returns (p: nat)
      requires Valid() && (front < mem.Length || Contents() == [])
      modifies this, mem
      ensures Valid() && Contents() == old(Contents()) && p == front
      ensures p + |Contents()| <= mem.Length && mem[p..p + |Contents()|] == Contents()
    {
      if front > back {
        AlignQue2Array();
      }
      p := front;
    }

    /** Let a callback write behind the queue; it delivers `data`, no longer than it was allowed to. */
    method CallBackPush(len: nat, data: seq<bv8>) returns (n: nat)
      requires Valid()
      requires |data| <= Fitting(len, Capacity() - |Contents()|)
      modifies this, mem
      ensures Valid()
      ensures n == |data| || (n == 0 && mem.Length - 1 == |old(Contents())|)
      ensures Contents() == old(Contents()) + data[..n]
    {
      var room := EmptyElemsInQue();
      if Fitting(len, room) == 0 {
        return 0;
      }
      var p := BackPtr();
      PushBehind(data);
      n := |data|;
    }

    // -------------------------------------------------------------- runs

    /** One operation, and its result. */
    method Apply(op: Op) returns (r: Outcome)
      requires Valid() && back < mem.Length
      modifies this, mem
      ensures Valid() && back < mem.Length
      ensures (Contents(), r) == Fifo(old(Contents()), mem.Length - 1, op)
    {
      match op
      case PushOne(value) =>
        var ok := Push(value);
        r := Done(ok);
      case PopOne =>
        var ok := Pop();
        r := Done(ok);
      case PushMany(buf) =>
        var len := PushArray(buf);
        r := Pushed(len);
      case PopMany(n) =>
        var buf := PopArray(n);
        r := Popped(buf);
    }

    /** Any run of the four operations is the run of a plain first-in-first-out sequence. */
    method Perform(ops: seq<Op>) returns (rs: seq<Outcome>)
      requires Valid() && back < mem.Length
      modifies this, mem
      ensures Valid() && back < mem.Length && |Contents()| <= mem.Length - 1
      ensures (Contents(), rs) == FifoRun(old(Contents()), mem.Length - 1, ops)
    {
      rs := [];
      var i := 0;
      assert ops[..0] == [];
      while i < |ops|
        invariant 0 <= i <= |ops| && Valid() && back < mem.Length
        invariant (Contents(), rs) == FifoRun(old(Contents()), Capacity(), ops[..i])
      {
        var r := Apply(ops[i]);
        assert ops[..i + 1][..i] == ops[..i];
        rs := rs + [r];
        i := i + 1;
      }
      assert ops[..i] == ops;
    }
  }

  // ---------------------------------------------------------------- the plain queue

  datatype Op = PushOne(value: bv8) | PopOne | PushMany(buf: seq<bv8>) | PopMany(n: nat)

  datatype Outcome = Done(ok: bool) | Pushed(len: nat) | Popped(buf: seq<bv8>)

  /** A queue of limited capacity: what one operation leaves, and what it returns. */
  function Fifo(q: seq<bv8>, capacity: nat, op: Op): (r: (seq<bv8>, Outcome))
    requires |q| <= capacity
    ensures |r.0| <= capacity
  {
    match op
    case PushOne(value) => if |q| < capacity then (q + [value], Done(true)) else (q, Done(false))
    case PopOne => if q == [] then (q, Done(false)) else (q[1..], Done(true))
    case PushMany(buf) => var k := Fitting(|buf|, capacity - |q|); (q + buf[..k], Pushed(k))
    case PopMany(n) => var k := Fitting(n, |q|); (q[k..], Popped(q[..k]))
  }

  function FifoRun(q: seq<bv8>, capacity: nat, ops: seq<Op>): (r: (seq<bv8>, seq<Outcome>))
    requires |q| <= capacity
    ensures |r.0| <= capacity
  {
    if ops == [] then (q, [])
    else
      var front := FifoRun(q, capacity, ops[..|ops| - 1]);
      var (rest, out) := Fifo(front.0, capacity, ops[|ops| - 1]);
      (rest, front.1 + [out])
  }

  /** What an operation put into the queue, and what it took out; a byte popped singly is the oldest one. */
  function TakenIn(op: Op, r: Outcome): seq<bv8> {
    match (op, r)
    case (PushOne(value), Done(ok)) => if ok then [value] else []
    case (PushMany(buf), Pushed(len)) => if len <= |buf| then buf[..len] else []
    case _ => []
  }

  function AllIn(ops: seq<Op>, rs: seq<Outcome>): seq<bv8>
    requires |ops| == |rs|
  {
    if ops == [] then [] else AllIn(ops[..|ops| - 1], rs[..|rs| - 1]) + TakenIn(ops[|ops| - 1], rs[|rs| - 1])
  }

  /** How many bytes an operation took out of the queue. */
  function CountOut(op: Op, r: Outcome): nat {
    match (op, r)
    case (PopOne, Done(ok)) => if ok then 1 else 0
    case (PopMany(n), Popped(buf)) => |buf|
    case _ => 0
  }

  function AllOut(ops: seq<Op>, rs: seq<Outcome>): nat
    requires |ops| == |rs|
  {
    if ops == [] then 0 else AllOut(ops[..|ops| - 1], rs[..|rs| - 1]) + CountOut(ops[|ops| - 1], rs[|rs| - 1])
  }

  lemma FifoStep(q: seq<bv8>, capacity: nat, op: Op)
    requires |q| <= capacity
    ensures var (rest, r) := Fifo(q, capacity, op);
            && CountOut(op, r) <= |q + TakenIn(op, r)|
            && rest == (q + TakenIn(op, r))[CountOut(op, r)..]
            && (r.Popped? ==> r.buf == q[..CountOut(op, r)])
  {
  }

  lemma Dropped(s: seq<bv8>, n: nat, more: seq<bv8>, k: nat)
    requires n <= |s| && k <= |s[n..] + more|
    ensures n + k <= |s + more| && (s[n..] + more)[k..] == (s + more)[n + k..]
  {
  }

  /**
   * Conservation: after any run the queue holds what was in it and all that was taken in, in that
   * order, less as many of the oldest bytes as were taken out.
   */
  lemma {:induction false} FifoConserves(q: seq<bv8>, capacity: nat, ops: seq<Op>)
    requires |q| <= capacity
    ensures var (rest, rs) := FifoRun(q, capacity, ops);
            && |rs| == |ops|
            && AllOut(ops, rs) <= |q + AllIn(ops, rs)|
            && rest == (q + AllIn(ops, rs))[AllOut(ops, rs)..]
  {
    if ops == [] {
      assert q + [] == q;
    } else {
      var ops', op := ops[..|ops| - 1], ops[|ops| - 1];
      FifoConserves(q, capacity, ops');
      var (mid, rs') := FifoRun(q, capacity, ops');
      var (rest, r) := Fifo(mid, capacity, op);
      FifoStep(mid, capacity, op);
      assert (rs' + [r])[..|ops'|] == rs';
      Dropped(q + AllIn(ops', rs'), AllOut(ops', rs'), TakenIn(op, r), CountOut(op, r));
      assert q + AllIn(ops', rs') + TakenIn(op, r) == q + (AllIn(ops', rs') + TakenIn(op, r));
    }
  }

  /** The position in which an empty queue is not seen to be empty: fill it to the end, and take all out. */
  method EmptyUnseen() returns (que: RingQue, empty: bool)
    ensures que.Valid() && que.Contents() == [] && !empty
  {
    var mem := new bv8[2];
    que := new RingQue(mem);
    var ok := que.Push(1);
    var one := que.PopArray(1);
    var len := que.PushArray([2]);
    one := que.PopArray(1);
    empty := que.Empty();
  }

  // ---------------------------------------------------------------- a reversal half way

  /** The outer cells of [l, h] up to but not including position `m` and its mirror are exchanged. */
  ghost function PartTurned(s: seq<bv8>, l: nat, h: nat, m: nat): (r: seq<bv8>)
    requires l <= m && h < |s|
    ensures |r| == |s|
  {
    seq(|s|, k requires 0 <= k < |s| => if (l <= k < m || l + h - m < k) && l <= k <= h then s[l + h - k] else s[k])
  }

  lemma PartTurnedNone(s: seq<bv8>, l: nat, h: nat)
    requires l <= h < |s|
    ensures PartTurned(s, l, h, l) == s
  {
  }

  lemma PartTurnedMore(s: seq<bv8>, l: nat, h: nat, m: nat)
    requires l <= m <= h < |s| && m < l + h - m
    ensures var r := PartTurned(s, l, h, m); var i := l + h - m;
            r[m := r[i]][i := r[m]] == PartTurned(s, l, h, m + 1)
  {
  }

  lemma PartTurnedAll(s: seq<bv8>, l: nat, h: nat, m: nat)
    requires l <= m && l <= h < |s| && l + h - m <= m <= l + h - m + 1
    ensures PartTurned(s, l, h, m) == Turned(s, l, h + 1)
  {
  }

  /** The first bytes of the queue, and the queue without them. */
  lemma Front(s: seq<bv8>, front: nat, back: nat, len: nat)
    requires front <= |s| && back <= |s| && len <= |Queued(s, front, back)|
    ensures front + len <= |s| ==>
              && Queued(s, front, back)[..len] == s[front..front + len]
              && (front <= back || front + len > back)
              && Queued(s, front + len, back) == Queued(s, front, back)[len..]
    ensures front + len > |s| ==>
              && Queued(s, front, back)[..len] == s[front..] + s[..front + len - |s|]
              && Queued(s, front + len - |s|, back) == Queued(s, front, back)[len..]
  {
  }

  lemma PutTail(s: seq<bv8>, front: nat, back: nat, buf: seq<bv8>)
    requires front <= back && back + |buf| == |s|
    ensures Put(s, back, buf)[front..] == s[front..back] + buf
  {
  }

  lemma PutHead(s: seq<bv8>, front: nat, buf: seq<bv8>)
    requires |buf| <= front <= |s|
    ensures Put(s, 0, buf)[front..] == s[front..] && Put(s, 0, buf)[..|buf|] == buf
  {
  }

  lemma Joined(s: seq<bv8>, a: seq<bv8>, b: seq<bv8>, buf: seq<bv8>)
    requires a + b == buf
    ensures s + a + b == s + buf
  {
  }

  lemma Around(s: seq<bv8>, front: nat, back: nat, buf: seq<bv8>)
    requires front <= back <= |s| <= back + |buf| < |s| + front
    ensures var toEnd := |s| - back;
            var u := Put(Put(s, back, buf[..toEnd]), 0, buf[toEnd..]);
            u[front..] + u[..|buf| - toEnd] == s[front..back] + buf
  {
    var toEnd := |s| - back;
    PutTail(s, front, back, buf[..toEnd]);
    PutHead(Put(s, back, buf[..toEnd]), front, buf[toEnd..]);
    Joined(s[front..back], buf[..toEnd], buf[toEnd..], buf);
  }

  lemma Behind(s: seq<bv8>, front: nat, back: nat, buf: seq<bv8>)
    requires front <= |s| && back + |buf| <= |s| && (back < front ==> back + |buf| < front)
    ensures Queued(Put(s, back, buf), front, back + |buf|) == Queued(s, front, back) + buf
  {
    var t := Put(s, back, buf);
    assert t[..back + |buf|] == s[..back] + buf;
    if front <= back {
      assert t[front..back + |buf|] == s[front..back] + buf;
    } else {
      assert t[front..] == s[front..];
    }
  }
}
