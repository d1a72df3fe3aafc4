// The QSPI NOR flash driver of fw/User: how a write is cut into page
// programs, how a range is erased for the file system, where a sector
// erase lands and how the flag status register is read.

module SpiFlash {
  import opened Words

  const FLASH_SIZE: nat := 0x40_0000
  const SECTOR_SIZE: nat := 0x1_0000
  const SUBSECTOR_SIZE: nat := 0x1000
  const PAGE_SIZE: nat := 0x100

  // ---------------------------------------------------------------
  // spif_write: one page program per page touched
  // ---------------------------------------------------------------

  /** One page-program command: the bytes sent and the address they go to. */
  datatype Chunk = Chunk(addr: nat, data: seq<u8>)

  /**
   * The programs a write of data at addr issues: the first runs to the end
   * of addr's page (or the end of the data), every later one starts on a
   * page boundary. An empty write still issues one empty program.
   */
  function Chunks(addr: nat, data: seq<u8>): (r: seq<Chunk>)
    ensures |r| >= 1 && r[0].addr == addr
    decreases |data|
  {
    var first := Min(PAGE_SIZE - addr % PAGE_SIZE, |data|);
    if first == |data| then [Chunk(addr, data)]
    else [Chunk(addr, data[..first])] + Chunks(addr + first, data[first..])
  }

  /** The bytes of the programs, in order. */
  function Joined(cs: seq<Chunk>): seq<u8>
  {
    if cs == [] then [] else cs[0].data + Joined(cs[1..])
  }

  /** The programs send exactly the data, in order. */
  lemma {:induction false} ChunksJoin(addr: nat, data: seq<u8>)
    ensures Joined(Chunks(addr, data)) == data
    decreases |data|
  {
    var first := Min(PAGE_SIZE - addr % PAGE_SIZE, |data|);
    if first < |data| {
      var r := Chunks(addr, data);
      assert r[1..] == Chunks(addr + first, data[first..]);
      ChunksJoin(addr + first, data[first..]);
      assert data == data[..first] + data[first..];
    }
  }

  /** Each program stays inside one page. */
  predicate InPages(r: seq<Chunk>)
  {
    forall i | 0 <= i < |r| :: r[i].addr % PAGE_SIZE + |r[i].data| <= PAGE_SIZE
  }

  /** Each program starts where the previous one ended. */
  predicate Contiguous(r: seq<Chunk>)
  {
    forall i | 0 <= i < |r| - 1 :: r[i + 1].addr == r[i].addr + |r[i].data|
  }

  /** The programs never cross a page boundary and the data lands at addr, addr + 1, ... in order. */
  lemma {:induction false} ChunksInPages(addr: nat, data: seq<u8>)
    ensures InPages(Chunks(addr, data)) && Contiguous(Chunks(addr, data))
    decreases |data|
  {
    var first := Min(PAGE_SIZE - addr % PAGE_SIZE, |data|);
    if first < |data| {
      var r := Chunks(addr, data);
      var rest := Chunks(addr + first, data[first..]);
      assert r == [Chunk(addr, data[..first])] + rest;
      assert |r[0].data| == first && rest[0].addr == addr + first;
      ChunksInPages(addr + first, data[first..]);
      forall i | 0 <= i < |r| - 1
        ensures r[i + 1].addr == r[i].addr + |r[i].data|
      {
        if i > 0 {
          assert r[i] == rest[i - 1] && r[i + 1] == rest[i];
        }
      }
      forall i | 0 <= i < |r|
        ensures r[i].addr % PAGE_SIZE + |r[i].data| <= PAGE_SIZE
      {
        if i > 0 {
          assert r[i] == rest[i - 1];
        }
      }
    }
  }

  /** A non-empty write issues one program per page it touches and no more. */
  lemma {:induction false} ChunkCount(addr: nat, data: seq<u8>)
    requires |data| > 0
    ensures |Chunks(addr, data)| == (addr % PAGE_SIZE + |data| - 1) / PAGE_SIZE + 1
    decreases |data|
  {
    var first := Min(PAGE_SIZE - addr % PAGE_SIZE, |data|);
    if first < |data| {
      ChunkCount(addr + first, data[first..]);
      assert (addr + first) % PAGE_SIZE == 0;
    }
  }

  /** One unfolding of Chunks with the first program's size given. */
  lemma ChunksStep(current: nat, rest: seq<u8>, size: nat)
    requires size == Min(PAGE_SIZE - current % PAGE_SIZE, |rest|)
    ensures size == |rest| ==> Chunks(current, rest) == [Chunk(current, rest)]
    ensures size < |rest| ==> Chunks(current, rest) == [Chunk(current, rest[..size])] + Chunks(current + size, rest[size..])
    ensures size < |rest| ==> (current + size) % PAGE_SIZE == 0
  {
  }

  /**
   * The state of spif_write's page loop: current is the next address,
   * currentSize the length of its program, and chunks followed by the
   * programs for the rest of data are all the programs.
   */
  predicate Progress(addr: nat, data: seq<u8>, first: bool, current: nat, currentSize: nat, chunks: seq<Chunk>)
  {
    var end := addr + |data|;
    && addr <= current <= end
    && currentSize == Min(PAGE_SIZE - current % PAGE_SIZE, end - current)
    && (first ==> current == addr && chunks == [])
    && (!first ==> current % PAGE_SIZE == 0 || current == end)
    && (first || current < end ==> chunks + Chunks(current, data[current - addr..]) == Chunks(addr, data))
    && (!(first || current < end) ==> chunks == Chunks(addr, data))
  }

  /** One turn of the page loop keeps Progress, and after the first turn every program moves forward. */
  lemma ProgressStep(addr: nat, data: seq<u8>, first: bool, current: nat, currentSize: nat, chunks: seq<Chunk>)
    requires Progress(addr, data, first, current, currentSize, chunks) && (first || current < addr + |data|)
    ensures first || currentSize > 0
    ensures var end, next := addr + |data|, current + currentSize;
      Progress(addr, data, false, next, if next + PAGE_SIZE > end then end - next else PAGE_SIZE,
               chunks + [Chunk(current, data[current - addr..current - addr + currentSize])])
  {
    ChunksAdvance(addr, data, current, currentSize, chunks);
    NextSize(current + currentSize, addr + |data|);
  }

  /** The program at current joins the programs issued so far; what is left starts on a page boundary or is empty. */
  lemma ChunksAdvance(addr: nat, data: seq<u8>, current: nat, currentSize: nat, chunks: seq<Chunk>)
    requires addr <= current <= addr + |data| && currentSize == Min(PAGE_SIZE - current % PAGE_SIZE, addr + |data| - current)
    requires chunks + Chunks(current, data[current - addr..]) == Chunks(addr, data)
    ensures var next, end := current + currentSize, addr + |data|;
      var chunks' := chunks + [Chunk(current, data[current - addr..current - addr + currentSize])];
      && next <= end && (next % PAGE_SIZE == 0 || next == end)
      && (next < end ==> chunks' + Chunks(next, data[next - addr..]) == Chunks(addr, data))
      && (next == end ==> chunks' == Chunks(addr, data))
  {
    var a, next := current - addr, current + currentSize;
    ChunksStepAt(current, data, a, currentSize);
    assert next - addr == a + currentSize;
    var c := Chunk(current, data[a..a + currentSize]);
    if currentSize < |data| - a {
      var later := Chunks(next, data[a + currentSize..]);
      assert chunks + [c] + later == chunks + ([c] + later);
    }
  }

  /** ChunksStep for the data left after the first a bytes, in slices of data. */
  lemma ChunksStepAt(current: nat, data: seq<u8>, a: nat, size: nat)
    requires a <= |data| && size == Min(PAGE_SIZE - current % PAGE_SIZE, |data| - a)
    ensures size == |data| - a ==> Chunks(current, data[a..]) == [Chunk(current, data[a..a + size])]
    ensures size < |data| - a ==>
      && Chunks(current, data[a..]) == [Chunk(current, data[a..a + size])] + Chunks(current + size, data[a + size..])
      && (current + size) % PAGE_SIZE == 0
  {
    SuffixSlices(data, a, size);
    ChunksStep(current, data[a..], size);
  }

  /** The size spif_write computes for the next program is the rest of that page, or the rest of the data. */
  lemma NextSize(next: nat, end: nat)
    requires next <= end && (next % PAGE_SIZE == 0 || next == end)
    ensures (if next + PAGE_SIZE > end then end - next else PAGE_SIZE) == Min(PAGE_SIZE - next % PAGE_SIZE, end - next)
  {
  }

  /** The first n bytes of data[a..], and what follows them, as slices of data. */
  lemma SuffixSlices(data: seq<u8>, a: nat, n: nat)
    requires a + n <= |data|
    ensures data[a..][..n] == data[a..a + n] && data[a..][n..] == data[a + n..]
    ensures n == |data| - a ==> data[a..][..n] == data[a..]
  {
  }

  /**
   * spif_write's page loop: the returned programs are Chunks(addr, data).
   * The do-while issues its first program before testing the end, so an
   * empty write sends one empty program.
   */
  method Write(addr: u32, data: seq<u8>) returns (chunks: seq<Chunk>)
    requires addr + |data| + PAGE_SIZE < 0x1_0000_0000
    ensures chunks == Chunks(addr, data)
  {
    var size := |data|;
    var currentSize: nat := PAGE_SIZE - addr % PAGE_SIZE;
    if currentSize > size {
      currentSize := size;
    }
    var current: nat := addr;
    var end := addr + size;
    chunks := [];
    var first := true;
    while first || current < end
      invariant Progress(addr, data, first, current, currentSize, chunks)
      decreases end - current + (if first then 1 else 0)
    {
      ProgressStep(addr, data, first, current, currentSize, chunks);
      chunks := chunks + [Chunk(current, data[current - addr..current - addr + currentSize])];
      current := current + currentSize;
      currentSize := if current + PAGE_SIZE > end then end - current else PAGE_SIZE;
      first := false;
      assert Progress(addr, data, first, current, currentSize, chunks);
    }
  }

  // ---------------------------------------------------------------
  // _spiffs_erase and spif_erase_sector
  // ---------------------------------------------------------------

  /** The number of 4 KiB erases for len bytes: (len + 4095) / 4096 in uint32_t arithmetic. */
  function EraseCount(len: u32): nat
  {
    ((len + SUBSECTOR_SIZE - 1) % 0x1_0000_0000) / SUBSECTOR_SIZE
  }

  /** Below the uint32_t wrap, the count is the fewest 4 KiB blocks from addr that cover every byte of the range. */
  lemma EraseCovers(len: u32)
    requires len + SUBSECTOR_SIZE - 1 < 0x1_0000_0000
    ensures EraseCount(len) * SUBSECTOR_SIZE >= len
    ensures len > 0 ==> (EraseCount(len) - 1) * SUBSECTOR_SIZE < len
    ensures len == 0 ==> EraseCount(len) == 0
  {
  }

  /** The address of the i-th erase of a range starting at addr, wrapping as uint32_t. */
  function BlockAddress(addr: u32, i: nat): u32
  {
    (addr + i * SUBSECTOR_SIZE) % 0x1_0000_0000
  }

  /**
   * The loop of _spiffs_erase: one subsector erase per block, in order;
   * the outcome of each (false for a block whose erase fails) is a
   * parameter. anyFailed says whether some erase failed.
   */
  method EraseBlocks(addr: u32, len: u32, ok: seq<bool>) returns (blocks: seq<u32>, anyFailed: bool)
    requires |ok| == EraseCount(len)
    ensures |blocks| == EraseCount(len)
    ensures forall i | 0 <= i < |blocks| :: blocks[i] == BlockAddress(addr, i)
    ensures anyFailed <==> exists i | 0 <= i < |ok| :: !ok[i]
  {
    var count := EraseCount(len);
    blocks := [];
    anyFailed := false;
    var i := 0;
    while i < count
      invariant i <= count && |blocks| == i
      invariant forall j | 0 <= j < i :: blocks[j] == BlockAddress(addr, j)
      invariant anyFailed <==> exists j | 0 <= j < i :: !ok[j]
    {
      blocks := blocks + [BlockAddress(addr, i)];
      anyFailed := anyFailed || !ok[i];
      i := i + 1;
    }
  }

  /** _spiffs_erase as written: the erase results are summed into res and dropped; 0 is returned. */
  method EraseAsWritten(addr: u32, len: u32, ok: seq<bool>) returns (res: int, blocks: seq<u32>)
    requires |ok| == EraseCount(len)
    ensures |blocks| == EraseCount(len) && forall i | 0 <= i < |blocks| :: blocks[i] == BlockAddress(addr, i)
    ensures res == 0
  {
    var anyFailed;
    blocks, anyFailed := EraseBlocks(addr, len, ok);
    res := 0;
  }

  /**
   * _spiffs_erase reporting a failed block erase to the file system with a
   * negative result. ok[i] is whether spif_erase_block succeeded, which
   * takes it to return 0 on success, where as written it has no return.
   */
  method Erase(addr: u32, len: u32, ok: seq<bool>) returns (res: int, blocks: seq<u32>)
    requires |ok| == EraseCount(len)
    ensures |blocks| == EraseCount(len) && forall i | 0 <= i < |blocks| :: blocks[i] == BlockAddress(addr, i)
    ensures res == 0 <==> forall i | 0 <= i < |ok| :: ok[i]
    ensures res == 0 || res == -1
  {
    var anyFailed;
    blocks, anyFailed := EraseBlocks(addr, len, ok);
    res := if anyFailed then -1 else 0;
  }

  /** spif_erase_sector's address: sector * SPIF_SECTOR_SIZE as uint32_t. */
  function SectorAddress(sector: u32): u32
  {
    (sector * SECTOR_SIZE) % 0x1_0000_0000
  }

  /** Every sector of the 4 MiB device maps to the aligned start of that sector, and back. */
  lemma SectorAddressInDevice(sector: u32)
    requires sector < FLASH_SIZE / SECTOR_SIZE
    ensures SectorAddress(sector) < FLASH_SIZE
    ensures SectorAddress(sector) % SECTOR_SIZE == 0 && SectorAddress(sector) / SECTOR_SIZE == sector
  {
  }

  // ---------------------------------------------------------------
  // spif_get_status
  // ---------------------------------------------------------------

  /** spif_status_t. */
  const READY: u8 := 0
  const BUSY: u8 := 1
  const SUSPENDED: u8 := 2
  const ERROR: u8 := 3

  /** Flag status register bits. */
  const FSR_PRERR: bv8 := 0x02
  const FSR_PGSUS: bv8 := 0x04
  const FSR_VPPERR: bv8 := 0x08
  const FSR_PGERR: bv8 := 0x10
  const FSR_ERERR: bv8 := 0x20
  const FSR_ERSUS: bv8 := 0x40
  const FSR_READY: bv8 := 0x80

  /** Whether reg has some bit of mask set, as reg & mask in C. */
  predicate AnySet(reg: u8, mask: bv8)
  {
    (reg as bv8) & mask != 0
  }

  /**
   * spif_get_status. The register read is None when the QSPI command or
   * receive fails; the function then returns -1, which its uint8_t result
   * type turns into 255.
   */
  function Status(reg: Option<u8>): u8
  {
    match reg
    case None => 255
    case Some(r) =>
      if AnySet(r, FSR_PRERR | FSR_VPPERR | FSR_PGERR | FSR_ERERR) then ERROR
      else if AnySet(r, FSR_PGSUS | FSR_ERSUS) then SUSPENDED
      else if AnySet(r, FSR_READY) then READY
      else BUSY
  }

  /** Bit k of a register, by arithmetic. */
  predicate Bit(reg: u8, k: nat)
    requires k < 8
  {
    (reg / Pow2(k)) % 2 == 1
  }

  lemma Pow2Small()
    ensures Pow2(1) == 2 && Pow2(2) == 4 && Pow2(3) == 8 && Pow2(4) == 16
    ensures Pow2(5) == 32 && Pow2(6) == 64 && Pow2(7) == 128
  {
    assert Pow2(0) == 1;
  }

  /**
   * The status by the register's bits: any of the error bits 1, 3, 4, 5
   * wins, then a suspend bit 2 or 6, then ready bit 7; a failed read is
   * never taken for one of the four states.
   */
  lemma StatusByBits(reg: Option<u8>)
    ensures reg.None? ==> Status(reg) !in {READY, BUSY, SUSPENDED, ERROR}
    ensures reg.Some? ==>
      var r := reg.value;
      var error := Bit(r, 1) || Bit(r, 3) || Bit(r, 4) || Bit(r, 5);
      var suspended := Bit(r, 2) || Bit(r, 6);
      && (Status(reg) == ERROR <==> error)
      && (Status(reg) == SUSPENDED <==> !error && suspended)
      && (Status(reg) == READY <==> !error && !suspended && Bit(r, 7))
      && (Status(reg) == BUSY <==> !error && !suspended && !Bit(r, 7))
  {
    Pow2Small();
    if reg.Some? {
      var r := reg.value;
      BitsOfByte(r);
    }
  }

  /** The bv8 masks and the arithmetic bits agree on every byte. */
  lemma BitsOfByte(r: u8)
    ensures AnySet(r, FSR_PRERR | FSR_VPPERR | FSR_PGERR | FSR_ERERR)
      <==> (r / 2) % 2 == 1 || (r / 8) % 2 == 1 || (r / 16) % 2 == 1 || (r / 32) % 2 == 1
    ensures AnySet(r, FSR_PGSUS | FSR_ERSUS) <==> (r / 4) % 2 == 1 || (r / 64) % 2 == 1
    ensures AnySet(r, FSR_READY) <==> r / 128 == 1
  {
  }
}
