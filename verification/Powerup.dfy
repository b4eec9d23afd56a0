/**
 * The power-up field: a row of 32-bit variables in its own flash sector, the second of which
 * counts them, with the XOR of all of them behind the last. The host tool restores it word by
 * word over the network; the device checks it and changes single variables.
 */
module Powerup {
  import opened Flash
  import opened Images
  import opened Octets
  import opened Bootloader
  import opened Exchange
  import opened Loader

  const FIELD := 0xC000
  const POWERUP_VAR_ADDR := FLASH_BASE + FIELD
  const MAX_VAR_NUM_FUTURE := 256
  const VAR_NUM := 11

  // ---------------------------------------------------------------- words

  /** A 32-bit word as its four bytes in memory, the lowest first. */
  type Word32 = s: seq<bv8> | |s| == 4 witness [0, 0, 0, 0]

  const ZERO: Word32 := [0, 0, 0, 0]
  const BOOT_PARAM_APP: Word32 := [0xAA, 0xAA, 0x55, 0x55]

  function Number(w: Word32): (v: nat)
    ensures v < WORD
  {
    WordOf([w[3], w[2], w[1], w[0]])
  }

  /** Two rows of bytes XORed one by one. */
  function XorBytes(u: seq<bv8>, v: seq<bv8>): (x: seq<bv8>)
    requires |u| == |v|
    ensures |x| == |u|
  {
    if u == [] then [] else [u[0] ^ v[0]] + XorBytes(u[1..], v[1..])
  }

  function XorWord(u: Word32, v: Word32): Word32 {
    XorBytes(u, v)
  }

  /** The XOR of a row of words. */
  function XorAll(ws: seq<Word32>): Word32 {
    if ws == [] then ZERO else XorWord(XorAll(ws[..|ws| - 1]), ws[|ws| - 1])
  }

  /** A row of words as it lies in memory. */
  function Flat(ws: seq<Word32>): (s: seq<bv8>)
    ensures |s| == 4 * |ws|
  {
    if ws == [] then [] else Flat(ws[..|ws| - 1]) + ws[|ws| - 1]
  }

  lemma {:induction false} FlatAt(ws: seq<Word32>, i: nat)
    requires i < |ws|
    ensures Flat(ws)[4 * i..4 * i + 4] == ws[i]
  {
    var n := |ws| - 1;
    if i == n {
      assert Flat(ws)[4 * n..4 * n + 4] == ws[n];
    } else {
      FlatAt(ws[..n], i);
      assert Flat(ws)[4 * i..4 * i + 4] == Flat(ws[..n])[4 * i..4 * i + 4];
    }
  }

  lemma SameByte(b: bv8, c: bv8, x: bv8)
    requires x == b ^ c
    ensures x == 0 <==> b == c
    ensures b == 0 ==> x == c
  {
  }

  /** Two rows XOR to zeros exactly when they are the same. */
  lemma {:induction false} XorSame(u: seq<bv8>, v: seq<bv8>)
    requires |u| == |v|
    ensures XorBytes(u, v) == Zeros(|u|) <==> u == v
  {
    if u != [] {
      XorSame(u[1..], v[1..]);
      SameByte(u[0], v[0], u[0] ^ v[0]);
      assert u == [u[0]] + u[1..] && v == [v[0]] + v[1..];
      assert XorBytes(u, v)[0] == u[0] ^ v[0] && XorBytes(u, v)[1..] == XorBytes(u[1..], v[1..]);
      assert Zeros(|u|)[0] == 0 && Zeros(|u|)[1..] == Zeros(|u| - 1);
      assert XorBytes(u, v) == [XorBytes(u, v)[0]] + XorBytes(u, v)[1..];
      assert Zeros(|u|) == [0] + Zeros(|u| - 1);
    }
  }

  lemma {:induction false} XorZeros(v: seq<bv8>)
    ensures XorBytes(Zeros(|v|), v) == v
  {
    if v != [] {
      XorZeros(v[1..]);
      SameByte(0, v[0], 0 ^ v[0]);
      assert Zeros(|v|)[1..] == Zeros(|v| - 1);
      assert v == [v[0]] + v[1..];
    }
  }

  lemma XorWords(u: Word32, v: Word32)
    ensures XorWord(u, v) == ZERO <==> u == v
    ensures XorWord(ZERO, v) == v
  {
    XorSame(u, v);
    XorZeros(v);
    assert ZERO == Zeros(4);
  }

  /** A row followed by its check word XORs to zero, and by no other word; a row of one is its own check word. */
  lemma CheckWord(ws: seq<Word32>, c: Word32)
    ensures XorAll(ws + [c]) == [0, 0, 0, 0] <==> c == XorAll(ws)
    ensures XorAll([c]) == c
  {
    assert (ws + [c])[..|ws|] == ws && [c][..0] == [];
    XorWords(XorAll(ws), c);
  }

  /** A word in memory is a number with its lowest byte first. */
  lemma NumberIs(w: Word32)
    ensures Number(w) == Value(w[0]) + 0x100 * Value(w[1]) + 0x1_0000 * Value(w[2]) + 0x100_0000 * Value(w[3])
  {
  }

  // ---------------------------------------------------------------- the field

  function WordAt(cell: seq<bv8>, i: nat): Word32
    requires FIELD + 4 * i + 4 <= |cell|
  {
    cell[FIELD + 4 * i..FIELD + 4 * i + 4]
  }

  ghost function WordsAt(cell: seq<bv8>, n: nat): (ws: seq<Word32>)
    requires FIELD + 4 * n <= |cell|
    ensures |ws| == n
  {
    seq(n, i requires 0 <= i < n => WordAt(cell, i))
  }

  ghost function Count(f: Nor): nat
    requires Valid(f)
  {
    Number(WordAt(f.cell, 1))
  }

  /** verifyPowerupField: the count is in range and the check word matches. */
  ghost predicate Verified(f: Nor)
    requires Valid(f)
  {
    var n := Count(f);
    1 <= n <= MAX_VAR_NUM_FUTURE && XorAll(WordsAt(f.cell, n)) == WordAt(f.cell, n)
  }

  /** The field starts at offset 0xC000, and its second word counts its words. */
  lemma CountIs(f: Nor)
    requires Valid(f)
    ensures Count(f) == Value(f.cell[0xC004]) + 0x100 * Value(f.cell[0xC005]) + 0x1_0000 * Value(f.cell[0xC006])
                        + 0x100_0000 * Value(f.cell[0xC007])
  {
    var w := WordAt(f.cell, 1);
    assert w[0] == f.cell[0xC004] && w[1] == f.cell[0xC005] && w[2] == f.cell[0xC006] && w[3] == f.cell[0xC007];
  }

  /** A field is a good one if and only if it counts 1 to 256 words and they XOR to zero with the word behind them. */
  lemma VerifiedMeans(f: Nor)
    requires Valid(f)
    ensures Verified(f) <==> 1 <= Count(f) <= 256 && XorAll(WordsAt(f.cell, Count(f) + 1)) == [0, 0, 0, 0]
  {
    if Count(f) <= 256 {
      var n := Count(f);
      assert WordsAt(f.cell, n + 1) == WordsAt(f.cell, n) + [WordAt(f.cell, n)];
      CheckWord(WordsAt(f.cell, n), WordAt(f.cell, n));
    }
  }

  /** A field as a program writes it: the words and their check word. */
  ghost function FieldImage(ws: seq<Word32>): (s: seq<bv8>)
    ensures |s| == 4 * |ws| + 4
  {
    Flat(ws) + XorAll(ws)
  }

  ghost predicate Holds(f: Nor, ws: seq<Word32>) {
    && Valid(f)
    && FIELD + 4 * |ws| + 4 <= FLASH_SIZE
    && f.cell[FIELD..FIELD + 4 * |ws| + 4] == FieldImage(ws)
  }

  lemma SliceInSlice(s: seq<bv8>, lo: nat, hi: nat, i: nat)
    requires lo <= hi <= |s| && i + 4 <= hi - lo
    ensures s[lo..hi][i..i + 4] == s[lo + i..lo + i + 4]
  {
    var t := s[lo..hi];
    var u, v := t[i..i + 4], s[lo + i..lo + i + 4];
    assert u[0] == v[0] && u[1] == v[1] && u[2] == v[2] && u[3] == v[3];
  }

  lemma SliceBehind(s: seq<bv8>, t: Word32)
    ensures (s + t)[|s|..|s| + 4] == t
  {
  }

  lemma ImageSplit(flat: seq<bv8>, x: Word32, n: nat, i: nat)
    requires |flat| == 4 * n && i <= n
    ensures (flat + x)[4 * i..4 * i + 4] == if i < n then flat[4 * i..4 * i + 4] else x
  {
    if i < n {
      SliceBefore(flat, x, 4 * i, 4 * i + 4);
    } else {
      SliceBehind(flat, x);
    }
  }

  lemma ImageAt(ws: seq<Word32>, i: nat)
    requires i <= |ws|
    ensures FieldImage(ws)[4 * i..4 * i + 4] == if i < |ws| then ws[i] else XorAll(ws)
  {
    ImageSplit(Flat(ws), XorAll(ws), |ws|, i);
    if i < |ws| {
      FlatAt(ws, i);
    }
  }

  lemma HeldSlice(cell: seq<bv8>, t: seq<bv8>, i: nat)
    requires FIELD + |t| <= |cell| && cell[FIELD..FIELD + |t|] == t && 4 * i + 4 <= |t|
    ensures WordAt(cell, i) == t[4 * i..4 * i + 4]
  {
    Whole(cell, FIELD, t, 4 * i);
  }

  lemma HeldWord(f: Nor, ws: seq<Word32>, i: nat)
    requires Holds(f, ws) && i <= |ws|
    ensures WordAt(f.cell, i) == if i < |ws| then ws[i] else XorAll(ws)
  {
    HeldSlice(f.cell, FieldImage(ws), i);
    ImageAt(ws, i);
  }

  lemma Whole(s: seq<bv8>, lo: nat, t: seq<bv8>, i: nat)
    requires lo + |t| <= |s| && s[lo..lo + |t|] == t && i + 4 <= |t|
    ensures s[lo + i..lo + i + 4] == t[i..i + 4]
  {
    SliceInSlice(s, lo, lo + |t|, i);
  }

  lemma HeldWords(f: Nor, ws: seq<Word32>)
    requires Holds(f, ws)
    ensures WordsAt(f.cell, |ws|) == ws && WordAt(f.cell, |ws|) == XorAll(ws)
  {
    forall i | 0 <= i < |ws|
      ensures WordsAt(f.cell, |ws|)[i] == ws[i]
    {
      HeldWord(f, ws, i);
    }
    HeldWord(f, ws, |ws|);
  }

  /** A written field of at least two words whose count says so is a verified one. */
  lemma HeldVerified(f: Nor, ws: seq<Word32>)
    requires Holds(f, ws) && 2 <= |ws| <= MAX_VAR_NUM_FUTURE && Number(ws[1]) == |ws|
    ensures Verified(f) && Count(f) == |ws| && WordsAt(f.cell, |ws|) == ws
  {
    HeldWords(f, ws);
    HeldWord(f, ws, 1);
  }

  // ---------------------------------------------------------------- what the host tool restores

  /** How many words the tool first takes the field to have. */
  ghost function ClaimedNum(f: Nor): nat
    requires Valid(f)
  {
    if Count(f) > 0xFFFF then 2 else Count(f)
  }

  ghost predicate Matches(f: Nor)
    requires Valid(f)
  {
    XorAll(WordsAt(f.cell, ClaimedNum(f))) == WordAt(f.cell, ClaimedNum(f))
  }

  ghost function SuitNum(f: Nor): nat
    requires Valid(f)
  {
    if Matches(f) then ClaimedNum(f) else 2
  }

  const TWO: Word32 := [2, 0, 0, 0]

  /** The words the tool writes back. */
  ghost function RestoredWords(f: Nor): (ws: seq<Word32>)
    requires Valid(f) && SuitNum(f) > 0
    ensures |ws| == SuitNum(f)
  {
    (if SuitNum(f) == 2 then [ZERO, TWO] else WordsAt(f.cell, SuitNum(f)))[0 := BOOT_PARAM_APP]
  }

  lemma TwoIsTwo()
    ensures Number(TWO) == 2
  {
    ValueIs(2);
    ValueIs(0);
  }

  lemma BootParamLarge()
    ensures Number(BOOT_PARAM_APP) > MAX_VAR_NUM_FUTURE
  {
    ValueIs(0x55);
    ValueIs(0xAA);
  }

  /** `g` holds what the tool makes of the field of `f`. */
  ghost predicate Restored(f: Nor, g: Nor)
    requires Valid(f)
  {
    SuitNum(f) > 0 && Holds(g, RestoredWords(f))
  }

  /** The old field has a count the tool believes and the check word that belongs to its words. */
  ghost predicate GoodField(f: Nor)
    requires Valid(f)
  {
    Count(f) <= 0xFFFF && XorAll(WordsAt(f.cell, Count(f))) == WordAt(f.cell, Count(f))
  }

  /**
   * The restored field is one the device accepts if and only if the old one was not a good field,
   * or one of 2 to 256 words. The other variables of a good field are kept.
   */
  lemma RestoredVerified(f: Nor, g: Nor)
    requires Valid(f) && Restored(f, g)
    ensures Verified(g) <==> !GoodField(f) || 2 <= Count(f) <= 256
    ensures g.cell[0xC000..0xC004] == [0xAA, 0xAA, 0x55, 0x55]
    ensures GoodField(f) && Count(f) > 2 ==> forall i :: 1 <= i < Count(f) ==> WordAt(g.cell, i) == WordAt(f.cell, i)
  {
    var n, ws := SuitNum(f), RestoredWords(f);
    HeldWords(g, ws);
    HeldFirst(g, ws);
    HeldWord(g, ws, 0);
    HeldWord(g, ws, 1);
    TwoIsTwo();
    BootParamLarge();
    forall i | 1 <= i < n && n > 2
      ensures WordAt(g.cell, i) == WordAt(f.cell, i)
    {
      HeldWord(g, ws, i);
    }
    if 2 <= n <= MAX_VAR_NUM_FUTURE {
      HeldVerified(g, ws);
    }
  }

  /** There is nothing to restore exactly when the field counts no words and its first word is its right check word. */
  lemma NothingToRestore(f: Nor)
    requires Valid(f)
    ensures SuitNum(f) == 0 <==> Count(f) == 0 && f.cell[0xC000..0xC004] == [0, 0, 0, 0]
  {
    assert WordAt(f.cell, 0) == f.cell[0xC000..0xC004];
  }

  /**
   * What is written back, word for word: all words of a good field of 3 to 65535 words, the first
   * replaced by 0x5555AAAA; that word alone for a good field of one; and that word and a count of
   * two for a field of two, a count that is too large, or a wrong check word.
   */
  lemma RestoredField(f: Nor, g: Nor)
    requires Valid(f) && Restored(f, g)
    ensures Valid(g) && g.cell[0xC000..0xC004] == [0xAA, 0xAA, 0x55, 0x55]
    ensures GoodField(f) && Count(f) >= 3 ==>
              && WordsAt(g.cell, Count(f)) == WordsAt(f.cell, Count(f))[0 := [0xAA, 0xAA, 0x55, 0x55]]
              && XorAll(WordsAt(g.cell, Count(f) + 1)) == [0, 0, 0, 0]
    ensures GoodField(f) && Count(f) == 1 ==> WordsAt(g.cell, 2) == [[0xAA, 0xAA, 0x55, 0x55], [0xAA, 0xAA, 0x55, 0x55]]
    ensures !GoodField(f) || Count(f) == 2 ==>
              && WordsAt(g.cell, 2) == [[0xAA, 0xAA, 0x55, 0x55], [2, 0, 0, 0]]
              && XorAll(WordsAt(g.cell, 3)) == [0, 0, 0, 0]
  {
    var ws := RestoredWords(f);
    WordsRestored(f);
    HeldRow(g, ws);
    HeldWords(g, ws);
    HeldFirst(g, ws);
    if GoodField(f) && Count(f) == 1 {
      RowOfOne(ws);
    }
  }

  lemma HeldFirst(g: Nor, ws: seq<Word32>)
    requires Holds(g, ws) && ws != []
    ensures Valid(g) && g.cell[0xC000..0xC004] == ws[0]
  {
    HeldWord(g, ws, 0);
    assert WordAt(g.cell, 0) == g.cell[0xC000..0xC004];
  }

  lemma WordsRestored(f: Nor)
    requires Valid(f) && SuitNum(f) > 0
    ensures RestoredWords(f)[0] == [0xAA, 0xAA, 0x55, 0x55]
    ensures GoodField(f) && Count(f) >= 3 ==> RestoredWords(f) == WordsAt(f.cell, Count(f))[0 := BOOT_PARAM_APP]
    ensures GoodField(f) && Count(f) == 1 ==> |RestoredWords(f)| == 1
    ensures !GoodField(f) || Count(f) == 2 ==> RestoredWords(f) == [BOOT_PARAM_APP, TWO]
  {
  }

  lemma RowOfOne(ws: seq<Word32>)
    ensures |ws| == 1 ==> ws + [XorAll(ws)] == [ws[0], ws[0]]
  {
    if |ws| == 1 {
      CheckWord([], ws[0]);
      assert ws == [ws[0]];
    }
  }

  /** A written row and its check word behind it. */
  lemma HeldRow(g: Nor, ws: seq<Word32>)
    requires Holds(g, ws)
    ensures WordsAt(g.cell, |ws| + 1) == ws + [XorAll(ws)]
    ensures XorAll(WordsAt(g.cell, |ws| + 1)) == [0, 0, 0, 0]
  {
    var n := |ws|;
    HeldWords(g, ws);
    assert WordsAt(g.cell, n + 1) == WordsAt(g.cell, n) + [WordAt(g.cell, n)];
    CheckWord(ws, XorAll(ws));
  }

  // ---------------------------------------------------------------- the host tool

  /** The words read so far and their XOR. */
  ghost predicate ReadSoFar(f: Nor, ws: seq<Word32>, x: Word32, i: nat) {
    Valid(f) && i <= 0x1_0000 && ws == WordsAt(f.cell, i) && x == XorAll(ws)
  }

  lemma ReadMore(f: Nor, ws: seq<Word32>, x: Word32, i: nat)
    requires ReadSoFar(f, ws, x, i) && i < 0x1_0000
    ensures ReadSoFar(f, ws + [WordAt(f.cell, i)], XorWord(x, WordAt(f.cell, i)), i + 1)
  {
    assert (ws + [WordAt(f.cell, i)])[..|ws|] == ws;
  }

  method ReadWordAt(host: Host, i: nat) returns (r: Reading)
    requires host.Linked() && Between(host.State()) && i <= 0x1_0000
    modifies host, host.dev, host.dev.flash.cell, host.dev.flash.mark
    ensures host.Linked() && Between(host.State()) && host.State().flash == old(host.State().flash)
    ensures r.Word? ==> |r.bytes| == 4 && r.bytes == WordAt(old(host.State().flash.cell), i)
    ensures host.losses >= old(host.losses)
    ensures r.NoWord? ==> host.losses > old(host.losses) && r.outcome != Finished
  {
    r := host.ReadUint32(POWERUP_VAR_ADDR + 4 * i);
  }

  /** Read `n` words and their XOR. */
  method ReadWords(host: Host, n: nat, ghost f: Nor) returns (outcome: Outcome, ws: seq<Word32>, x: Word32)
    requires host.Linked() && Between(host.State()) && n <= 0x1_0000 && host.State().flash == f
    modifies host, host.dev, host.dev.flash.cell, host.dev.flash.mark
    ensures host.Linked() && Between(host.State()) && host.State().flash == f
    ensures host.losses >= old(host.losses)
    ensures outcome == Finished ==> ReadSoFar(f, ws, x, n)
    ensures outcome != Finished ==> host.losses > old(host.losses)
  {
    ws, x := [], ZERO;
    var i := 0;
    while i < n
      invariant i <= n && host.Linked() && Between(host.State()) && host.State().flash == f
      invariant host.losses >= old(host.losses)
      invariant ReadSoFar(f, ws, x, i)
    {
      var r := ReadWordAt(host, i);
      if r.NoWord? {
        return r.outcome, ws, x;
      }
      ReadMore(f, ws, x, i);
      ws := ws + [r.bytes];
      x := XorWord(x, r.bytes);
      i := i + 1;
    }
    outcome := Finished;
  }

  /** The loop of the restore: `i` words are written and XORed. */
  ghost predicate LoadedSoFar(host: Host, f: Nor, ws: seq<Word32>, i: nat, x: Word32)
    requires host.Linked()
    reads host, host.dev, host.dev.flash, host.dev.flash.cell, host.dev.flash.mark
  {
    i <= |ws| && host.Loading(f, FIELD, FieldImage(ws), 4 * i) && x == XorAll(ws[..i])
  }

  /** One word of the field, or the check word behind it. */
  method LoadNext(host: Host, ws: seq<Word32>, i: nat, val: Word32, ghost f: Nor) returns (done: bool)
    requires host.Linked() && |ws| <= 0xFFFF && i <= |ws| && host.Loading(f, FIELD, FieldImage(ws), 4 * i)
    requires val == if i < |ws| then ws[i] else XorAll(ws)
    modifies host, host.dev, host.dev.flash.cell, host.dev.flash.mark
    ensures host.Linked() && Between(host.State())
    ensures done ==> host.Loading(f, FIELD, FieldImage(ws), 4 * i + 4)
    ensures host.losses >= old(host.losses) && (!done ==> host.losses > old(host.losses))
  {
    ImageAt(ws, i);
    WordIsChunk(FIELD, FieldImage(ws), 4 * i);
    ChunkWritten(f, FIELD, FieldImage(ws), 4 * i, 4 * i + 4, 4 * i);
    ghost var failed;
    done, failed := host.LoadUint32(val, POWERUP_VAR_ADDR + 4 * i);
  }

  method LoadWord(host: Host, ws: seq<Word32>, i: nat, x: Word32, ghost f: Nor) returns (done: bool)
    requires host.Linked() && |ws| <= 0xFFFF && i < |ws| && LoadedSoFar(host, f, ws, i, x)
    modifies host, host.dev, host.dev.flash.cell, host.dev.flash.mark
    ensures host.Linked() && Between(host.State())
    ensures done ==> LoadedSoFar(host, f, ws, i + 1, XorWord(x, ws[i]))
    ensures host.losses >= old(host.losses) && (!done ==> host.losses > old(host.losses))
  {
    assert ws[..i + 1][..i] == ws[..i];
    done := LoadNext(host, ws, i, ws[i], f);
  }

  method LoadCheck(host: Host, ws: seq<Word32>, x: Word32, ghost f: Nor) returns (done: bool)
    requires host.Linked() && |ws| <= 0xFFFF && LoadedSoFar(host, f, ws, |ws|, x)
    modifies host, host.dev, host.dev.flash.cell, host.dev.flash.mark
    ensures host.Linked() && Between(host.State())
    ensures done ==> host.Loading(f, FIELD, FieldImage(ws), 4 * |ws| + 4)
    ensures host.losses >= old(host.losses) && (!done ==> host.losses > old(host.losses))
  {
    assert ws[..|ws|] == ws;
    done := LoadNext(host, ws, |ws|, x, f);
  }

  /** Write the words and their check word, each by itself. */
  method LoadWords(host: Host, ws: seq<Word32>, ghost f: Nor) returns (done: bool)
    requires host.Linked() && |ws| <= 0xFFFF && host.Loading(f, FIELD, FieldImage(ws), 0)
    modifies host, host.dev, host.dev.flash.cell, host.dev.flash.mark
    ensures host.Linked() && Between(host.State())
    ensures done ==> host.Loading(f, FIELD, FieldImage(ws), 4 * |ws| + 4)
    ensures host.losses >= old(host.losses) && (!done ==> host.losses > old(host.losses))
  {
    var x := ZERO;
    var i := 0;
    while i < |ws|
      invariant host.Linked() && host.losses >= old(host.losses) && LoadedSoFar(host, f, ws, i, x)
    {
      done := LoadWord(host, ws, i, x, f);
      if !done {
        return;
      }
      x := XorWord(x, ws[i]);
      i := i + 1;
    }
    done := LoadCheck(host, ws, x, f);
  }

  /** The words to write back, read out of the old field where it is a good one. */
  method WordsToRestore(host: Host, ghost f: Nor) returns (outcome: Outcome, ws: seq<Word32>)
    requires host.Linked() && Between(host.State()) && host.State().flash == f
    modifies host, host.dev, host.dev.flash.cell, host.dev.flash.mark
    ensures host.Linked() && Between(host.State()) && host.State().flash == f
    ensures host.losses >= old(host.losses)
    ensures outcome == Finished ==> SuitNum(f) > 0 && ws == RestoredWords(f)
    ensures outcome != Finished ==> host.losses > old(host.losses) || SuitNum(f) == 0
  {
    ws := [];
    var r := ReadWordAt(host, 1);
    if r.NoWord? {
      return r.outcome, ws;
    }
    var suitVarNum := if Number(r.bytes) > 0xFFFF then 2 else Number(r.bytes);
    var x;
    outcome, ws, x := ReadWords(host, suitVarNum, f);
    if outcome != Finished {
      return;
    }
    r := ReadWordAt(host, suitVarNum);
    if r.NoWord? {
      return r.outcome, ws;
    }
    if x != r.bytes {
      suitVarNum := 2;
    }
    if suitVarNum != 2 {
      outcome, ws, x := ReadWords(host, suitVarNum, f);
      if outcome != Finished {
        return;
      }
    } else {
      ws := [ZERO, TWO];
    }
    if |ws| == 0 {
      return Raised, ws;
    }
    ws := ws[0 := BOOT_PARAM_APP];
  }

  /** The field fits the flash, and none of the sectors it will lie in is marked as erased. */
  ghost predicate Restorable(f: Nor) {
    Valid(f) && (SuitNum(f) > 0 ==> Placed(f, FIELD, FieldImage(RestoredWords(f))))
  }

  /**
   * The restore: read the old field, and write a new one word by word. It ends well unless the
   * network lost something or the old field counts no words at all. Nothing but the sectors of
   * the field is changed.
   */
  method RestoreBootParam(host: Host) returns (outcome: Outcome)
    requires host.Linked() && Between(host.State()) && Restorable(host.State().flash)
    modifies host, host.dev, host.dev.flash.cell, host.dev.flash.mark
    ensures host.Linked() && Between(host.State()) && host.losses >= old(host.losses)
    ensures outcome == Finished ==> var f := old(host.State().flash);
                                    Restored(f, host.State().flash) && host.State().flash == FieldRestored(f)
    ensures outcome != Finished ==> host.losses > old(host.losses) || SuitNum(old(host.State().flash)) == 0
  {
    ghost var f := host.State().flash;
    var ws;
    outcome, ws := WordsToRestore(host, f);
    if outcome != Finished {
      return;
    }
    var done := StoreRestored(host, ws, f);
    outcome := if done then Finished else Exited;
  }

  method StoreRestored(host: Host, ws: seq<Word32>, ghost f: Nor) returns (done: bool)
    requires host.Linked() && Between(host.State()) && host.State().flash == f
    requires Restorable(f) && SuitNum(f) > 0 && ws == RestoredWords(f)
    modifies host, host.dev, host.dev.flash.cell, host.dev.flash.mark
    ensures host.Linked() && Between(host.State())
    ensures done ==> host.State().flash == FieldRestored(f) && Holds(host.State().flash, ws)
    ensures host.losses >= old(host.losses) && (!done ==> host.losses > old(host.losses))
  {
    LoadedNothing(f, FIELD, FieldImage(ws));
    done := LoadWords(host, ws, f);
    if done {
      LoadedAll(f, FIELD, FieldImage(ws));
    }
  }

  ghost function FieldRestored(f: Nor): Nor
    requires Valid(f) && SuitNum(f) > 0
  {
    Loaded(f, FIELD, FieldImage(RestoredWords(f)), 4 * SuitNum(f) + 4)
  }

  // ---------------------------------------------------------------- a load and a restore

  /** A cell of the image lies in a sector that is marked once the image is loaded. */
  lemma ImageMarked(f: Nor, a: nat, image: seq<bv8>, k: nat)
    requires Placed(f, a, image) && a <= k < a + |image|
    ensures Loaded(f, a, image, |image|).mark[SectorOf(FLASH_BASE + k)]
  {
    SectorHolds(FLASH_BASE + k, SectorOf(FLASH_BASE + k));
  }

  /** Restoring the field leaves a loaded image alone: their sectors are different ones. */
  lemma ImageSurvives(f: Nor, a: nat, image: seq<bv8>)
    requires Placed(f, a, image)
    requires var g := Loaded(f, a, image, |image|); Restorable(g) && SuitNum(g) > 0
    ensures FieldRestored(Loaded(f, a, image, |image|)).cell[a..a + |image|] == image
  {
    var g := Loaded(f, a, image, |image|);
    var field := FieldImage(RestoredWords(g));
    LoadedAll(f, a, image);
    LoadedAll(g, FIELD, field);
    forall k | a <= k < a + |image|
      ensures FieldRestored(g).cell[k] == g.cell[k]
    {
      ImageMarked(f, a, image, k);
      assert !Touched(SectorOf(FLASH_BASE + k), FIELD, |field|);
    }
    SameSlice(FieldRestored(g).cell, g.cell, a, a + |image|);
  }

  lemma SameSlice(s: seq<bv8>, t: seq<bv8>, lo: nat, hi: nat)
    requires |s| == |t| && lo <= hi <= |s| && forall k :: lo <= k < hi ==> s[k] == t[k]
    ensures s[lo..hi] == t[lo..hi]
  {
  }

  /**
   * What the update scripts run: a load, then the restore. If both finish, the program is in the
   * flash and the field behind it is the restored one. A sector of the image is marked by then;
   * only the sectors of the field must not be.
   */
  method LoadAndRestore(host: Host, image: seq<bv8>, address: nat, appAddress: nat, ghost a: nat)
    returns (outcome: Outcome)
    requires host.Linked() && Between(host.State())
    requires 0x0800_0000 + a == if address == 0 then appAddress else address
    requires Placed(host.State().flash, a, image) && |image| % 4 == 0
    requires Restorable(Loaded(host.State().flash, a, image, |image|))
    modifies host, host.dev, host.dev.flash.cell, host.dev.flash.mark
    ensures host.Linked() && Between(host.State())
    ensures var g := Loaded(old(host.State().flash), a, image, |image|);
            && (outcome == Finished ==> Restored(g, host.State().flash))
            && (outcome != Finished ==> host.losses > old(host.losses) || SuitNum(g) == 0)
    ensures outcome == Finished && address != 0 ==>
              host.State().flash.cell[address - 0x0800_0000..address - 0x0800_0000 + |image|] == image
    ensures outcome == Finished && address == 0 ==>
              host.State().flash.cell[appAddress - 0x0800_0000..appAddress - 0x0800_0000 + |image|] == image
  {
    ghost var f := host.State().flash;
    var done;
    ghost var p, failed;
    done, p, failed := host.LoadBin(image, address, appAddress, a);
    if !done {
      return Exited;
    }
    outcome := RestoreBehind(host, f, a, image);
  }

  method RestoreBehind(host: Host, ghost f: Nor, ghost a: nat, ghost image: seq<bv8>) returns (outcome: Outcome)
    requires host.Linked() && Between(host.State()) && Placed(f, a, image)
    requires host.State().flash == Loaded(f, a, image, |image|) && Restorable(Loaded(f, a, image, |image|))
    modifies host, host.dev, host.dev.flash.cell, host.dev.flash.mark
    ensures host.Linked() && Between(host.State()) && host.losses >= old(host.losses)
    ensures outcome == Finished ==> Restored(Loaded(f, a, image, |image|), host.State().flash)
    ensures outcome == Finished ==> host.State().flash.cell[a..a + |image|] == image
    ensures outcome != Finished ==>
              host.losses > old(host.losses) || SuitNum(Loaded(f, a, image, |image|)) == 0
  {
    outcome := RestoreBootParam(host);
    if outcome == Finished {
      ImageSurvives(f, a, image);
    }
  }

  const SECTOR := 3

  lemma OnlyItsSector(n: nat, s: nat)
    requires s < SECTORS && n <= 0x4000
    ensures Touched(s, FIELD, n) ==> s == SECTOR
  {
  }

  /** An image below or above the sector of the field does not touch it. */
  lemma ImageElsewhere(a: nat, n: nat)
    requires a + n <= FIELD || FIELD + 0x4000 <= a
    ensures !Touched(SECTOR, a, n)
  {
  }

  /**
   * A program outside the sector of the field, and a field of at most 4095 words in its own
   * sector, not erased before: then the restore may follow the load.
   */
  lemma RestorableAfterLoad(f: Nor, a: nat, image: seq<bv8>)
    requires Placed(f, a, image) && !f.mark[SECTOR]
    requires a + |image| <= FIELD || FIELD + 0x4000 <= a
    requires SuitNum(Loaded(f, a, image, |image|)) <= 0xFFF
    ensures Restorable(Loaded(f, a, image, |image|))
  {
    var g := Loaded(f, a, image, |image|);
    ImageElsewhere(a, |image|);
    if SuitNum(g) > 0 {
      var field := FieldImage(RestoredWords(g));
      forall s: nat | s < SECTORS && Touched(s, FIELD, |field|)
        ensures !g.mark[s]
      {
        OnlyItsSector(|field|, s);
      }
    }
  }

  lemma FieldWordStays(f: Nor, a: nat, image: seq<bv8>, i: nat)
    requires Placed(f, a, image) && i < 0x1000
    requires a + |image| <= FIELD || FIELD + 0x4000 <= a
    ensures WordAt(Loaded(f, a, image, |image|).cell, i) == WordAt(f.cell, i)
  {
    ImageElsewhere(a, |image|);
    LoadedAll(f, a, image);
    forall k | FIELD + 4 * i <= k < FIELD + 4 * i + 4
      ensures Loaded(f, a, image, |image|).cell[k] == f.cell[k]
    {
      SectorHolds(FLASH_BASE + k, SECTOR);
    }
    SameSlice(Loaded(f, a, image, |image|).cell, f.cell, FIELD + 4 * i, FIELD + 4 * i + 4);
  }

  /** A field that lies in its own sector is the same field after the load, and is restored to the same words. */
  lemma RestoredWordsStay(f: Nor, a: nat, image: seq<bv8>)
    requires Placed(f, a, image) && ClaimedNum(f) <= 0xFFF
    requires a + |image| <= FIELD || FIELD + 0x4000 <= a
    ensures var g := Loaded(f, a, image, |image|);
            SuitNum(g) == SuitNum(f) && (SuitNum(f) > 0 ==> RestoredWords(g) == RestoredWords(f))
  {
    var g := Loaded(f, a, image, |image|);
    FieldWordStays(f, a, image, 1);
    var n := ClaimedNum(f);
    assert ClaimedNum(g) == n;
    forall i | 0 <= i <= n
      ensures WordAt(g.cell, i) == WordAt(f.cell, i)
    {
      FieldWordStays(f, a, image, i);
    }
    assert WordsAt(g.cell, n) == WordsAt(f.cell, n);
  }

  // ---------------------------------------------------------------- the device

  /** check_func over words in memory. */
  method CheckFunc(ws: seq<Word32>) returns (res: Word32)
    ensures res == XorAll(ws)
  {
    res := ZERO;
    var i := 0;
    while i < |ws|
      invariant 0 <= i <= |ws| && res == XorAll(ws[..i])
    {
      assert ws[..i + 1][..i] == ws[..i];
      res := XorWord(res, ws[i]);
      i := i + 1;
    }
    assert ws[..i] == ws;
  }

  method ReadVars(flash: Controller, n: nat) returns (ws: seq<Word32>)
    requires flash.Ready() && n <= 0x1_0000
    ensures ws == WordsAt(flash.Contents().cell, n)
  {
    var cell := flash.cell[..];
    ws := seq(n, i requires 0 <= i < n => WordAt(cell, i));
  }

  method VerifyPowerupField(flash: Controller) returns (ok: bool)
    requires flash.Ready()
    ensures ok == Verified(flash.Contents())
  {
    var cell := flash.cell[..];
    var n := Number(WordAt(cell, 1));
    if n > MAX_VAR_NUM_FUTURE || n < 1 {
      return false;
    }
    var ws := ReadVars(flash, n);
    var res := CheckFunc(ws);
    ok := res == WordAt(cell, n);
  }

  ghost function SuitVarNum(f: Nor): nat
    requires Valid(f)
  {
    if Count(f) > MAX_VAR_NUM_FUTURE then VAR_NUM else Count(f)
  }

  method GetSuitVarNum(flash: Controller) returns (n: nat)
    requires flash.Ready()
    ensures n == SuitVarNum(flash.Contents())
  {
    n := Number(WordAt(flash.cell[..], 1));
    if n > MAX_VAR_NUM_FUTURE {
      n := VAR_NUM;
    }
  }

  /** The sector of the field is not marked as erased, and the field fits the shadow buffer. */
  ghost predicate Writable(f: Nor) {
    Valid(f) && !f.mark[SECTOR] && SuitVarNum(f) <= VAR_NUM
  }

  lemma WritablePlaced(f: Nor, image: seq<bv8>)
    requires Writable(f) && |image| <= 0x1000
    ensures Placed(f, FIELD, image) && Loaded(f, FIELD, image, 0) == f
  {
    forall s: nat | s < SECTORS && Touched(s, FIELD, |image|)
      ensures !f.mark[s]
    {
      OnlyItsSector(|image|, s);
    }
    LoadedNothing(f, FIELD, image);
  }

  /** Write a field in one go and take the erase mark off again. */
  method StoreField(flash: Controller, ws: seq<Word32>)
    requires flash.Ready() && Writable(flash.Contents()) && |ws| <= VAR_NUM
    modifies flash.cell, flash.mark
    ensures Holds(flash.Contents(), ws) && !flash.Contents().mark[SECTOR]
  {
    ghost var f := flash.Contents();
    var res := CheckFunc(ws);
    var shadow := Flat(ws) + res;
    WritablePlaced(f, shadow);
    ChunkWritten(f, FIELD, shadow, 0, |shadow|, 0);
    assert shadow[0..|shadow|] == shadow;
    var ok := flash.WriteBytes(POWERUP_VAR_ADDR, shadow);
    LoadedAll(f, FIELD, shadow);
    flash.ResetEraseMark(POWERUP_VAR_ADDR);
  }

  /** Change one variable. An index behind the field is refused; nothing is written when nothing changes. */
  method Write(flash: Controller, idx: nat, val: Word32)
    requires flash.Ready() && Writable(flash.Contents())
    modifies flash.cell, flash.mark
    ensures var f := old(flash.Contents()); var n := if Count(f) > 256 then 11 else Count(f);
            if idx >= n || (WordAt(f.cell, idx) == val && Verified(f)) then flash.Contents() == f
            else Holds(flash.Contents(), WordsAt(f.cell, n)[idx := val]) && !flash.Contents().mark[SECTOR]
  {
    var suitVarNum := GetSuitVarNum(flash);
    if idx >= suitVarNum {
      return;
    }
    var verified := VerifyPowerupField(flash);
    if WordAt(flash.cell[..], idx) == val && verified {
      return;
    }
    var ws := ReadVars(flash, suitVarNum);
    StoreField(flash, ws[idx := val]);
  }

  /** Writing a variable other than the count leaves a verified field with just that variable changed. */
  lemma WriteKeepsField(f: Nor, g: Nor, idx: nat, val: Word32)
    requires Valid(f) && 2 <= Count(f) <= VAR_NUM && idx < Count(f) && idx != 1
    requires if WordAt(f.cell, idx) == val && Verified(f) then g == f
             else Holds(g, WordsAt(f.cell, Count(f))[idx := val])
    ensures Verified(g) && Count(g) == Count(f)
    ensures forall i :: 0 <= i < Count(f) ==> WordAt(g.cell, i) == if i == idx then val else WordAt(f.cell, i)
  {
    if !(WordAt(f.cell, idx) == val && Verified(f)) {
      var ws := WordsAt(f.cell, Count(f))[idx := val];
      HeldVerified(g, ws);
      forall i | 0 <= i < Count(f)
        ensures WordAt(g.cell, i) == if i == idx then val else WordAt(f.cell, i)
      {
        HeldWord(g, ws, i);
      }
    }
  }

  /** With a single word the check word lies on the count: the field survives only the value one. */
  lemma OneWordField(g: Nor, val: Word32)
    requires Holds(g, [val])
    ensures Verified(g) && Count(g) == 1 <==> Number(val) == 1
  {
    HeldWord(g, [val], 0);
    HeldWord(g, [val], 1);
    HeldWords(g, [val]);
    CheckWord([], val);
  }

  const ELEVEN: Word32 := [11, 0, 0, 0]

  /** The words a program starts with: what the field has, defaults for the rest, the full count. */
  function InitialWords(cell: seq<bv8>, n: nat, defaults: seq<Word32>): (ws: seq<Word32>)
    requires |defaults| == VAR_NUM && n <= VAR_NUM && FIELD + 4 * VAR_NUM <= |cell|
    ensures |ws| == VAR_NUM
  {
    seq(VAR_NUM, i requires 0 <= i < VAR_NUM =>
      if i == 1 then ELEVEN else if i < n then WordAt(cell, i) else defaults[i])
  }

  /** The count is eleven; of the other words the first `n` are as they were, and the rest defaults. */
  ghost predicate Filled(cell: seq<bv8>, was: seq<bv8>, n: nat, defaults: seq<Word32>)
    requires |cell| == FLASH_SIZE && |was| == FLASH_SIZE && |defaults| == 11
  {
    && WordAt(cell, 1) == [11, 0, 0, 0]
    && forall i :: 0 <= i < 11 && i != 1 ==> WordAt(cell, i) == if i < n then WordAt(was, i) else defaults[i]
  }

  lemma HeldFilled(g: Nor, f: Nor, n: nat, defaults: seq<Word32>)
    requires Valid(f) && |defaults| == VAR_NUM && n <= VAR_NUM && Holds(g, InitialWords(f.cell, n, defaults))
    ensures Filled(g.cell, f.cell, n, defaults)
  {
    var ws := InitialWords(f.cell, n, defaults);
    forall i | 0 <= i < 11
      ensures WordAt(g.cell, i) == ws[i]
    {
      HeldWord(g, ws, i);
    }
  }

  /** The words in one write, their check word in another. */
  method StoreInTwo(flash: Controller, ws: seq<Word32>)
    requires flash.Ready() && Writable(flash.Contents()) && |ws| == VAR_NUM
    modifies flash.cell, flash.mark
    ensures Holds(flash.Contents(), ws) && !flash.Contents().mark[SECTOR]
  {
    ghost var f := flash.Contents();
    var res := CheckFunc(ws);
    ghost var image := FieldImage(ws);
    WritablePlaced(f, image);
    ChunkWritten(f, FIELD, image, 0, 4 * VAR_NUM, 0);
    ChunkWritten(f, FIELD, image, 4 * VAR_NUM, 4 * VAR_NUM + 4, 4 * VAR_NUM);
    ImageAt(ws, VAR_NUM);
    assert image[0..4 * VAR_NUM] == Flat(ws);
    var ok := flash.WriteBytes(POWERUP_VAR_ADDR, Flat(ws));
    ok := flash.WriteBytes(POWERUP_VAR_ADDR + 4 * VAR_NUM, res);
    LoadedAll(f, FIELD, image);
    flash.ResetEraseMark(POWERUP_VAR_ADDR);
  }

  /** Bring the field to the number of variables the program knows, unless it has that already. */
  method InitInApp(flash: Controller, defaults: seq<Word32>)
    requires flash.Ready() && Writable(flash.Contents()) && |defaults| == VAR_NUM
    modifies flash.cell, flash.mark
    ensures Verified(flash.Contents()) && Count(flash.Contents()) == 11
    ensures var f := old(flash.Contents());
            if Verified(f) && Count(f) == 11 then flash.Contents() == f
            else Filled(flash.Contents().cell, f.cell, if Count(f) > 256 then 11 else Count(f), defaults)
  {
    var verified := VerifyPowerupField(flash);
    var n := GetSuitVarNum(flash);
    if verified && VAR_NUM == n {
      return;
    }
    var ws := InitialWords(flash.cell[..], n, defaults);
    StoreInTwo(flash, ws);
    ElevenIsEleven();
    HeldVerified(flash.Contents(), ws);
    HeldFilled(flash.Contents(), old(flash.Contents()), n, defaults);
  }

  lemma ElevenIsEleven()
    ensures Number(ELEVEN) == VAR_NUM
  {
    ValueIs(11);
    ValueIs(0);
  }
}
