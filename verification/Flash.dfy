/**
 * The on-chip NOR flash under the bootloader: twelve sectors of unequal size, a table of
 * "already erased" marks, and programming that can only clear bits. Addresses are absolute,
 * the cells are indexed from FLASH_BASE.
 */
module Flash {
  const FLASH_BASE := 0x0800_0000
  const FLASH_SIZE := 0x0010_0000
  const OTP_LIMIT := 0x1FFF_0000
  const SECTORS := 12

  /** The cells and the erase-once table; a mark stands for the table's 0xFF. */
  datatype Nor = Nor(cell: seq<bv8>, mark: seq<bool>)

  ghost predicate Valid(f: Nor) {
    |f.cell| == FLASH_SIZE && |f.mark| == SECTORS
  }

  /** The offset where sector `s` starts; sector 12 is the end of the flash. */
  function SectorStart(s: nat): nat
    requires s <= SECTORS
  {
    if s <= 4 then s * 0x4000
    else if s == SECTORS then FLASH_SIZE
    else (s - 4) * 0x20000
  }

  /** The sector holding an address, in the library's encoding (eight times its number). */
  function GetFlashSector(addr: nat): nat {
    if addr < FLASH_BASE + 0x4000 then 0x00
    else if addr < FLASH_BASE + 0x8000 then 0x08
    else if addr < FLASH_BASE + 0xC000 then 0x10
    else if addr < FLASH_BASE + 0x10000 then 0x18
    else if addr < FLASH_BASE + 0x20000 then 0x20
    else if addr < FLASH_BASE + 0x40000 then 0x28
    else if addr < FLASH_BASE + 0x60000 then 0x30
    else if addr < FLASH_BASE + 0x80000 then 0x38
    else if addr < FLASH_BASE + 0xA0000 then 0x40
    else if addr < FLASH_BASE + 0xC0000 then 0x48
    else if addr < FLASH_BASE + 0xE0000 then 0x50
    else 0x58
  }

  /** The sector number of an address. */
  function SectorOf(addr: nat): (s: nat)
    ensures s < SECTORS
  {
    GetFlashSector(addr) / 8
  }

  /** An address inside the flash lies between its own sector's bounds and no other's. */
  lemma SectorHolds(addr: nat, s: nat)
    requires FLASH_BASE <= addr < FLASH_BASE + FLASH_SIZE && s < SECTORS
    ensures SectorStart(s) <= addr - FLASH_BASE < SectorStart(s + 1) <==> s == SectorOf(addr)
  {
  }

  /** Four sectors of 16 KiB, one of 64 KiB, and seven of 128 KiB make up the megabyte. */
  lemma SectorSizes(s: nat)
    requires s < 12
    ensures SectorStart(0) == 0 && SectorStart(12) == 0x10_0000
    ensures SectorStart(s + 1) - SectorStart(s) == if s < 4 then 0x4000 else if s == 4 then 0x1_0000 else 0x2_0000
  {
  }

  lemma SectorsGrow(s: nat, t: nat)
    requires s <= t <= SECTORS
    ensures SectorStart(s) <= SectorStart(t) <= FLASH_SIZE
    ensures SectorStart(s) % 256 == 0
  {
  }

  // ---------------------------------------------------------------- erasing and programming

  function Erased(cell: seq<bv8>, lo: nat, hi: nat): (r: seq<bv8>)
    ensures |r| == |cell|
  {
    seq(|cell|, k requires 0 <= k < |cell| => if lo <= k < hi then 0xFF else cell[k])
  }

  /** Programming clears bits: a cell keeps a bit only where the new byte has it too. */
  function Programmed(cell: seq<bv8>, off: nat, buf: seq<bv8>): (r: seq<bv8>)
    ensures |r| == |cell|
  {
    seq(|cell|, k requires 0 <= k < |cell| => if off <= k < off + |buf| then cell[k] & buf[k - off] else cell[k])
  }

  /** Erase sector `s` unless its mark says it was erased before; then mark it. */
  ghost function EraseOnce(f: Nor, s: nat): (r: Nor)
    requires Valid(f) && s < SECTORS
    ensures Valid(r)
  {
    if f.mark[s] then f
    else Nor(Erased(f.cell, SectorStart(s), SectorStart(s + 1)), f.mark[s := true])
  }

  /** How many bytes of `n`, in whole words, lie inside the flash from offset `off`. */
  function Fit(off: nat, n: nat): (k: nat)
    ensures k <= n
    ensures off + n <= FLASH_SIZE && n % 4 == 0 ==> k == n
  {
    if off + n <= FLASH_SIZE then n / 4 * 4
    else if off <= FLASH_SIZE then (FLASH_SIZE - off) / 4 * 4
    else 0
  }

  function NoMarks(): seq<bool> { seq(SECTORS, i => false) }

  predicate Acceptable(addr: nat, n: nat) {
    n % 4 == 0 && n <= 256 && FLASH_BASE <= addr
  }

  /** The flash after a write request, and whether it was reported as done. */
  ghost function Written(f: Nor, addr: nat, buf: seq<bv8>): (r: Nor)
    requires Valid(f)
    ensures Valid(r)
  {
    if !Acceptable(addr, |buf|) then f
    else
      var e := if addr < OTP_LIMIT then EraseOnce(f, SectorOf(addr)) else f;
      var off := addr - FLASH_BASE;
      var n := Fit(off, |buf|);
      Nor(Programmed(e.cell, off, buf[..n]), if n == |buf| then e.mark else NoMarks())
  }

  predicate Reported(addr: nat, n: nat) {
    Acceptable(addr, n) && Fit(addr - FLASH_BASE, n) == n
  }

  /** The flash controller with its cells and the mark table, updated in place. */
  class Controller {
    const cell: array<bv8>
    const mark: array<bool>

    /** Power-up: the cells are as they were left, the table of marks is clear. */
    constructor (image: seq<bv8>)
      requires |image| == FLASH_SIZE
      ensures Ready() && fresh(cell) && fresh(mark)
      ensures Contents() == Nor(image, NoMarks())
    {
      cell := new bv8[FLASH_SIZE](i requires 0 <= i < FLASH_SIZE => image[i]);
      mark := new bool[SECTORS](i => false);
    }

    ghost predicate Ready()
      reads this
    {
      cell.Length == FLASH_SIZE && mark.Length == SECTORS
    }

    ghost function Contents(): (f: Nor)
      requires Ready()
      reads this, cell, mark
      ensures Valid(f)
    {
      Nor(cell[..], mark[..])
    }

    method EraseSector(lo: nat, hi: nat)
      requires Ready() && lo <= hi <= FLASH_SIZE
      modifies cell
      ensures cell[..] == Erased(old(cell[..]), lo, hi)
    {
      var i := lo;
      while i < hi
        invariant lo <= i <= hi
        invariant forall k :: 0 <= k < cell.Length ==> cell[k] == if lo <= k < i then 0xFF else old(cell[k])
      {
        cell[i] := 0xFF;
        i := i + 1;
      }
    }

    method EraseSectorOnce(sector: nat)
      requires Ready() && sector / 8 < SECTORS
      modifies cell, mark
      ensures Contents() == EraseOnce(old(Contents()), sector / 8)
    {
      var idx := sector / 8;
      if !mark[idx] {
        SectorsGrow(idx, idx + 1);
        SectorsGrow(idx + 1, SECTORS);
        EraseSector(SectorStart(idx), SectorStart(idx + 1));
        mark[idx] := true;
      }
    }

    /** One word: refused outside the flash, otherwise its four bytes are and-ed in. */
    method ProgramWord(off: nat, word: seq<bv8>) returns (ok: bool)
      requires Ready() && |word| == 4
      modifies cell
      ensures ok == (off + 4 <= FLASH_SIZE)
      ensures cell[..] == if ok then Programmed(old(cell[..]), off, word) else old(cell[..])
    {
      ok := off + 4 <= FLASH_SIZE;
      if ok {
        forall k | off <= k < off + 4 {
          cell[k] := cell[k] & word[k - off];
        }
      }
    }

    method ResetMarks()
      requires Ready()
      modifies mark
      ensures mark[..] == NoMarks()
    {
      var i := 0;
      while i < SECTORS
        invariant i <= SECTORS
        invariant forall k :: 0 <= k < i ==> !mark[k]
      {
        mark[i] := false;
        i := i + 1;
      }
    }

    /** The word at `i` of a buffer whose first `i` bytes are programmed already. */
    method ProgramNext(off: nat, buf: seq<bv8>, i: nat, ghost was: seq<bv8>) returns (ok: bool)
      requires Ready() && i < |buf| && Reached(off, |buf|, i, true)
      requires cell[..] == Programmed(was, off, buf[..i])
      modifies cell
      ensures Reached(off, |buf|, if ok then i + 4 else i, ok)
      ensures cell[..] == Programmed(was, off, buf[..if ok then i + 4 else i])
    {
      ReachNext(off, |buf|, i);
      ProgramOnward(was, off, buf, i);
      ok := ProgramWord(off + i, buf[i..i + 4]);
    }

    method ProgramWords(off: nat, buf: seq<bv8>) returns (ok: bool)
      requires Ready() && |buf| % 4 == 0
      modifies cell
      ensures ok == (Fit(off, |buf|) == |buf|)
      ensures cell[..] == Programmed(old(cell[..]), off, buf[..Fit(off, |buf|)])
    {
      var i := 0;
      ok := true;
      ghost var was := cell[..];
      ProgramNothing(was, off, buf);
      while ok && i < |buf|
        invariant Reached(off, |buf|, i, ok)
        invariant cell[..] == Programmed(was, off, buf[..i])
        decreases ok, |buf| - i
      {
        ok := ProgramNext(off, buf, i, was);
        i := if ok then i + 4 else i;
      }
      StoppedAt(off, |buf|, i, ok);
    }

    method WriteBytes(addr: nat, buf: seq<bv8>) returns (ok: bool)
      requires Ready()
      modifies cell, mark
      ensures Contents() == Written(old(Contents()), addr, buf)
      ensures ok == Reported(addr, |buf|)
    {
      if |buf| % 4 != 0 || |buf| > 256 || addr < FLASH_BASE {
        return false;
      }
      if addr < OTP_LIMIT {
        EraseSectorOnce(GetFlashSector(addr));
      }
      ok := ProgramWords(addr - FLASH_BASE, buf);
      if !ok {
        ResetMarks();
      }
    }

    method ResetEraseMark(addr: nat)
      requires Ready()
      modifies mark
      ensures mark[..] == old(mark[..])[SectorOf(addr) := false]
    {
      mark[SectorOf(addr)] := false;
    }
  }

  lemma ProgramNothing(cell: seq<bv8>, off: nat, buf: seq<bv8>)
    ensures Programmed(cell, off, buf[..0]) == cell
  {
  }

  lemma ProgramOnward(cell: seq<bv8>, off: nat, buf: seq<bv8>, i: nat)
    requires i + 4 <= |buf|
    ensures Programmed(Programmed(cell, off, buf[..i]), off + i, buf[i..i + 4]) == Programmed(cell, off, buf[..i + 4])
  {
  }

  /** `i` bytes of `n` are programmed, and `ok` says whether the word at `i` was not refused. */
  ghost predicate Reached(off: nat, n: nat, i: nat, ok: bool) {
    && i <= n && i % 4 == 0 && n % 4 == 0
    && (i == 0 || off + i <= FLASH_SIZE)
    && (ok || (i < n && off + i + 4 > FLASH_SIZE))
  }

  lemma ReachNext(off: nat, n: nat, i: nat)
    requires Reached(off, n, i, true) && i < n
    ensures i + 4 <= n
    ensures off + i + 4 <= FLASH_SIZE ==> Reached(off, n, i + 4, true)
    ensures off + i + 4 > FLASH_SIZE ==> Reached(off, n, i, false)
  {
  }

  lemma StoppedAt(off: nat, n: nat, i: nat, ok: bool)
    requires Reached(off, n, i, ok)
    requires ok ==> i == n
    ensures i == Fit(off, n) && ok == (Fit(off, n) == n)
  {
  }
}
