/**
 * What the flash holds while an image is written to it chunk by chunk, as one closed form, and
 * the two facts the loading protocol lives on: the next chunk extends the loaded part, and a
 * chunk written twice changes nothing.
 */
module Images {
  import opened Flash

  /** Sector `s` shares a cell with the `p` bytes from offset `a`. */
  ghost predicate Touched(s: nat, a: nat, p: nat)
    requires s < SECTORS
  {
    p > 0 && SectorStart(s) < a + p && a < SectorStart(s + 1)
  }

  ghost predicate Placed(f: Nor, a: nat, image: seq<bv8>) {
    && Valid(f)
    && a % 256 == 0
    && a + |image| <= FLASH_SIZE
    && forall s: nat :: s < SECTORS && Touched(s, a, |image|) ==> !f.mark[s]
  }

  /** A cell once `p` bytes of the image are in: the image, else blank where a sector was erased, else as before. */
  ghost function LoadedCell(f: Nor, a: nat, image: seq<bv8>, p: nat, k: nat): bv8
    requires Valid(f) && p <= |image| && k < FLASH_SIZE
  {
    if a <= k < a + p then image[k - a]
    else if Touched(SectorOf(FLASH_BASE + k), a, p) then 0xFF
    else f.cell[k]
  }

  ghost function Loaded(f: Nor, a: nat, image: seq<bv8>, p: nat): (r: Nor)
    requires Valid(f) && p <= |image|
    ensures Valid(r)
  {
    Nor(seq(FLASH_SIZE, k requires 0 <= k < FLASH_SIZE => LoadedCell(f, a, image, p, k)),
        seq(SECTORS, s requires 0 <= s < SECTORS => f.mark[s] || Touched(s, a, p)))
  }

  lemma LoadedNothing(f: Nor, a: nat, image: seq<bv8>)
    requires Valid(f)
    ensures Loaded(f, a, image, 0) == f
  {
  }

  /** The `n` bytes from offset `c` do not cross a 256-byte boundary. */
  ghost predicate InPage(c: nat, n: nat) {
    c % 256 + n <= 256
  }

  /** A chunk within a 256-byte page stays in one sector. */
  lemma ChunkInSector(c: nat, n: nat)
    requires 0 < n && InPage(c, n) && c + n <= FLASH_SIZE
    ensures var s := SectorOf(FLASH_BASE + c); SectorStart(s) <= c && c + n <= SectorStart(s + 1)
  {
    var s := SectorOf(FLASH_BASE + c);
    SectorHolds(FLASH_BASE + c, s);
    SectorsGrow(s + 1, s + 1);
  }

  /** Sectors lie one after another. */
  lemma SectorsApart(s: nat, t: nat)
    requires s < SECTORS && t < SECTORS && s != t
    ensures SectorStart(s + 1) <= SectorStart(t) || SectorStart(t + 1) <= SectorStart(s)
  {
  }

  /** The sectors touched so far, after one more chunk: the chunk's own sector joins. */
  lemma TouchedMore(a: nat, i: nat, j: nat, t: nat)
    requires i < j && InPage(a + i, j - i) && a + j <= FLASH_SIZE && t < SECTORS
    ensures Touched(t, a, j) <==> Touched(t, a, i) || t == SectorOf(FLASH_BASE + a + i)
  {
    var s := SectorOf(FLASH_BASE + a + i);
    ChunkInSector(a + i, j - i);
    if t != s {
      SectorsApart(s, t);
    }
  }

  /** The flash after the erase step that precedes a chunk, cell by cell. */
  ghost function ErasedCell(f: Nor, a: nat, image: seq<bv8>, p: nat, s: nat, k: nat): bv8
    requires Valid(f) && p <= |image| && k < FLASH_SIZE && s < SECTORS
  {
    if !Touched(s, a, p) && SectorStart(s) <= k < SectorStart(s + 1) then 0xFF
    else LoadedCell(f, a, image, p, k)
  }

  /** Outside the chunk the erase step already gives the new picture; inside, a cell the program step completes. */
  lemma CellReady(f: Nor, a: nat, image: seq<bv8>, i: nat, j: nat, p: nat, k: nat)
    requires Placed(f, a, image)
    requires i < j <= |image| && InPage(a + i, j - i) && (p == i || p == j)
    requires k < FLASH_SIZE
    ensures
      var before := ErasedCell(f, a, image, p, SectorOf(FLASH_BASE + a + i), k);
      var after := LoadedCell(f, a, image, j, k);
      if a + i <= k < a + j then before & image[k - a] == after else before == after
  {
    var s := SectorOf(FLASH_BASE + a + i);
    ChunkInSector(a + i, j - i);
    TouchedMore(a, i, j, s);
    var t := SectorOf(FLASH_BASE + k);
    TouchedMore(a, i, j, t);
    SectorHolds(FLASH_BASE + k, t);
    SectorHolds(FLASH_BASE + k, s);
  }

  lemma Ahead(f: Nor, a: nat, image: seq<bv8>, i: nat, j: nat, p: nat)
    requires Placed(f, a, image)
    requires i < j <= |image| && InPage(a + i, j - i) && (p == i || p == j)
    ensures var s := SectorOf(FLASH_BASE + a + i); !f.mark[s] && Loaded(f, a, image, p).mark[s] == Touched(s, a, p)
  {
    var s := SectorOf(FLASH_BASE + a + i);
    TouchedMore(a, i, j, s);
    ChunkInSector(a + i, j - i);
    assert Touched(s, a, |image|);
  }

  lemma EraseStep(f: Nor, a: nat, image: seq<bv8>, i: nat, j: nat, p: nat)
    requires Placed(f, a, image)
    requires i < j <= |image| && InPage(a + i, j - i) && (p == i || p == j)
    ensures
      var s := SectorOf(FLASH_BASE + a + i);
      var e := EraseOnce(Loaded(f, a, image, p), s);
      && (forall k :: 0 <= k < FLASH_SIZE ==> e.cell[k] == ErasedCell(f, a, image, p, s, k))
      && e.mark == Loaded(f, a, image, j).mark
  {
    var s := SectorOf(FLASH_BASE + a + i);
    Ahead(f, a, image, i, j, p);
    forall t | 0 <= t < SECTORS
      ensures Touched(t, a, j) <==> Touched(t, a, i) || t == s
    {
      TouchedMore(a, i, j, t);
    }
  }

  lemma ProgramStep(f: Nor, a: nat, image: seq<bv8>, i: nat, j: nat, p: nat, cell: seq<bv8>)
    requires Placed(f, a, image)
    requires i < j <= |image| && InPage(a + i, j - i) && (p == i || p == j)
    requires |cell| == FLASH_SIZE
    requires forall k :: 0 <= k < FLASH_SIZE ==> cell[k] == ErasedCell(f, a, image, p, SectorOf(FLASH_BASE + a + i), k)
    ensures Programmed(cell, a + i, image[i..j]) == Loaded(f, a, image, j).cell
  {
    forall k | 0 <= k < FLASH_SIZE
      ensures Programmed(cell, a + i, image[i..j])[k] == Loaded(f, a, image, j).cell[k]
    {
      CellReady(f, a, image, i, j, p, k);
    }
  }

  lemma WholeChunk(image: seq<bv8>, i: nat, j: nat, c: nat)
    requires i <= j <= |image| && j <= i + 256 && (j - i) % 4 == 0 && c + (j - i) <= FLASH_SIZE
    ensures Reported(FLASH_BASE + c, j - i) && FLASH_BASE + c <= OTP_LIMIT
    ensures image[i..j][..Fit(c, j - i)] == image[i..j]
  {
  }

  /**
   * Writing the chunk [i, j) of the image extends the loaded part from i to j, and leaves a
   * flash that already has it as it is.
   */
  lemma ChunkWritten(f: Nor, a: nat, image: seq<bv8>, i: nat, j: nat, p: nat)
    requires Placed(f, a, image)
    requires i < j <= |image| && InPage(a + i, j - i) && (p == i || p == j)
    requires (j - i) % 4 == 0
    ensures Written(Loaded(f, a, image, p), FLASH_BASE + a + i, image[i..j]) == Loaded(f, a, image, j)
    ensures Reported(FLASH_BASE + a + i, j - i)
  {
    var e := EraseOnce(Loaded(f, a, image, p), SectorOf(FLASH_BASE + a + i));
    EraseStep(f, a, image, i, j, p);
    ProgramStep(f, a, image, i, j, p, e.cell);
    WholeChunk(image, i, j, a + i);
  }

  /** A write done twice is a write done once: the sector is marked by then, and its bits are clear already. */
  lemma WrittenTwice(f: Nor, addr: nat, data: seq<bv8>)
    requires Valid(f) && Reported(addr, |data|)
    ensures Written(Written(f, addr, data), addr, data) == Written(f, addr, data)
  {
    var e := if addr < OTP_LIMIT then EraseOnce(f, SectorOf(addr)) else f;
    assert data[..|data|] == data;
    ProgrammedTwice(e.cell, addr - FLASH_BASE, data);
  }

  lemma ProgrammedTwice(cell: seq<bv8>, off: nat, data: seq<bv8>)
    ensures Programmed(Programmed(cell, off, data), off, data) == Programmed(cell, off, data)
  {
  }

  /** Requests that are refused: not in whole words, more than 256 bytes, or below the flash. */
  lemma WriteRefused(f: Nor, addr: nat, data: seq<bv8>)
    requires Valid(f) && (|data| % 4 != 0 || |data| > 256 || addr < 0x0800_0000)
    ensures Written(f, addr, data) == f && !Reported(addr, |data|)
  {
  }

  /** A request that leaves the flash fails, and then no sector counts as erased any more. */
  lemma WriteBeyond(f: Nor, addr: nat, data: seq<bv8>)
    requires Valid(f) && 0 < |data| <= 256 && |data| % 4 == 0 && addr >= 0x0800_0000 && addr + |data| > 0x0810_0000
    ensures !Reported(addr, |data|)
    ensures forall s :: 0 <= s < 12 ==> !Written(f, addr, data).mark[s]
  {
  }

  /** A request within a page of a sector not yet erased: its bytes stand there, the rest of the sector is blank. */
  lemma WrittenFresh(f: Nor, addr: nat, data: seq<bv8>)
    requires Valid(f) && 0 < |data| && |data| % 4 == 0 && addr >= 0x0800_0000 && addr + |data| <= 0x0810_0000
    requires InPage(addr - 0x0800_0000, |data|) && !f.mark[SectorOf(addr)]
    ensures Reported(addr, |data|)
    ensures var at := addr - 0x0800_0000; Written(f, addr, data).cell[at..at + |data|] == data
    ensures forall k :: 0 <= k < FLASH_SIZE && !(addr <= 0x0800_0000 + k < addr + |data|) ==>
              Written(f, addr, data).cell[k]
              == if SectorOf(0x0800_0000 + k) == SectorOf(addr) then 0xFF else f.cell[k]
  {
    var at := addr - 0x0800_0000;
    ChunkInSector(at, |data|);
    assert data[..|data|] == data;
    forall k | 0 <= k < FLASH_SIZE
      ensures Written(f, addr, data).cell[k] ==
              if at <= k < at + |data| then data[k - at]
              else if SectorOf(0x0800_0000 + k) == SectorOf(addr) then 0xFF else f.cell[k]
    {
      SectorHolds(FLASH_BASE + k, SectorOf(addr));
      FreshByte(if at <= k < at + |data| then data[k - at] else 0);
    }
  }

  lemma FreshByte(b: bv8)
    ensures 0xFF & b == b
  {
  }

  /** The finished image: its bytes are in place, and every sector it does not touch is unchanged. */
  lemma LoadedAll(f: Nor, a: nat, image: seq<bv8>)
    requires Placed(f, a, image)
    ensures Loaded(f, a, image, |image|).cell[a..a + |image|] == image
    ensures forall k :: 0 <= k < FLASH_SIZE && !Touched(SectorOf(FLASH_BASE + k), a, |image|)
                        ==> Loaded(f, a, image, |image|).cell[k] == f.cell[k]
  {
    forall k | 0 <= k < FLASH_SIZE && !Touched(SectorOf(FLASH_BASE + k), a, |image|)
      ensures Loaded(f, a, image, |image|).cell[k] == f.cell[k]
    {
      SectorHolds(FLASH_BASE + k, SectorOf(FLASH_BASE + k));
    }
  }
}
