// The i.MX EPDC waveform dumper: the header counts and data offset, the
// offset tables it follows, and the unpacking of one block's frames into
// luts[frame][source][destination]; and how it reads what the assembler
// writes.

module MxcDump {

  import opened Words
  import opened WaveBytes
  import opened MxcAsm

  // ---------------------------------------------------------------
  // Header and offsets
  // ---------------------------------------------------------------

  /** The number of modes or temperature ranges the dumper reads from an mc or trc field: the field plus one. */
  function DumpCount(field: u8): (n: nat)
    ensures 1 <= n <= 256
  {
    field + 1
  }

  /** The assembler's count fields read back to the counts exactly when there are 1 to 256 of them. */
  lemma DumpCountOfField(n: nat)
    ensures DumpCount(CountField(n)) == n <==> 1 <= n <= 256
  {
  }

  /** Start of the offset tables in the file: header, trc + 1 temperature entries, one padding byte. */
  function DataOffset(trc: u8): (offs: nat)
    ensures offs == HEADER_SIZE + DumpCount(trc) + 1
  {
    HEADER_SIZE + (trc + 1) + 1
  }

  /** The dumper looks for the offset tables where the assembler puts them. */
  lemma DataOffsetOfAssembled(temps: nat)
    requires 1 <= temps <= 256
    ensures DataOffset(CountField(temps)) == HEADER_SIZE + temps + 1
  {
  }

  /** The offset of mode i's temperature table, from the mode table at the start of the region. */
  function ModeAddress(region: seq<u8>, i: nat): u64
    requires i * 8 + 8 <= |region|
  {
    ReadUint64Le(region[i * 8..])
  }

  /** The offset of the data block for range j, from the temperature table of a mode at m. */
  function TempAddress(region: seq<u8>, m: nat, j: nat): u64
    requires m + j * 8 + 8 <= |region|
  {
    ReadUint64Le(region[m + j * 8..])
  }

  /** The frame count stored at the head of a data block. */
  function BlockFrames(region: seq<u8>, addr: nat): u64
    requires addr + 8 <= |region|
  {
    ReadUint64Le(region[addr..])
  }

  /** The mode table at the start of the region: mode i's table offset, little-endian, at 8i. */
  ghost predicate ModeTableAt(region: seq<u8>, counts: seq<seq<nat>>, temps: nat, ver: int)
  {
    forall i | 0 <= i < |counts| ::
      i * 8 + 8 <= |region| && region[i * 8..i * 8 + 8] == LeBytes(ModeStart(counts, temps, ver, i), 8)
  }

  /** Each mode's temperature table: block (i, j)'s offset at 8j past the mode's table offset. */
  ghost predicate TempTablesAt(region: seq<u8>, counts: seq<seq<nat>>, temps: nat, ver: int)
  {
    Rectangular(counts, temps)
    && forall i, j | 0 <= i < |counts| && 0 <= j < temps ::
      var m := ModeStart(counts, temps, ver, i);
      m + j * 8 + 8 <= |region| && region[m + j * 8..m + j * 8 + 8] == LeBytes(DataStart(counts, temps, ver, i, j), 8)
  }

  /** Each block's frame count at the block's offset. */
  ghost predicate FrameCountsAt(region: seq<u8>, counts: seq<seq<nat>>, temps: nat, ver: int)
  {
    Rectangular(counts, temps)
    && forall i, j | 0 <= i < |counts| && 0 <= j < temps ::
      var d := DataStart(counts, temps, ver, i, j);
      d + 8 <= |region| && region[d..d + 8] == LeBytes(counts[i][j], 8)
  }

  /** Eight little-endian bytes at the head of s read back as their value. */
  lemma ReadBack(s: seq<u8>, v: nat)
    requires |s| >= 8 && s[..8] == LeBytes(v, 8) && v < Pow256(8)
    ensures ReadUint64Le(s) == v
  {
    LeValueOfBytes(v, 8);
  }

  /** The dumper's read of the mode table gives the offset of each mode's temperature table. */
  lemma DumpReadsModeTable(region: seq<u8>, counts: seq<seq<nat>>, temps: nat, ver: int, i: nat)
    requires ModeTableAt(region, counts, temps, ver) && i < |counts|
    requires ModeStart(counts, temps, ver, i) < Pow256(8)
    ensures i * 8 + 8 <= |region| && ModeAddress(region, i) == ModeStart(counts, temps, ver, i)
  {
    assert region[i * 8..][..8] == region[i * 8..i * 8 + 8];
    ReadBack(region[i * 8..], ModeStart(counts, temps, ver, i));
  }

  /** Its read of a mode's temperature table gives the offset of each data block. */
  lemma DumpReadsTempTable(region: seq<u8>, counts: seq<seq<nat>>, temps: nat, ver: int, i: nat, j: nat)
    requires TempTablesAt(region, counts, temps, ver) && i < |counts| && j < temps
    requires DataStart(counts, temps, ver, i, j) < Pow256(8)
    ensures var m := ModeStart(counts, temps, ver, i);
      m + j * 8 + 8 <= |region| && TempAddress(region, m, j) == DataStart(counts, temps, ver, i, j)
  {
    var m := ModeStart(counts, temps, ver, i);
    assert region[m + j * 8..][..8] == region[m + j * 8..m + j * 8 + 8];
    ReadBack(region[m + j * 8..], DataStart(counts, temps, ver, i, j));
  }

  /** Its read at a block's offset gives the block's frame count. */
  lemma DumpReadsFrameCount(region: seq<u8>, counts: seq<seq<nat>>, temps: nat, ver: int, i: nat, j: nat)
    requires FrameCountsAt(region, counts, temps, ver) && i < |counts| && j < temps
    requires counts[i][j] < Pow256(8)
    ensures var d := DataStart(counts, temps, ver, i, j);
      d + 8 <= |region| && BlockFrames(region, d) == counts[i][j]
  {
    var d := DataStart(counts, temps, ver, i, j);
    assert region[d..][..8] == region[d..d + 8];
    ReadBack(region[d..], counts[i][j]);
  }

  // ---------------------------------------------------------------
  // dump_phases
  // ---------------------------------------------------------------

  /** The buffer holds the frame count and the phases frames of a block of the given version. */
  predicate Fits(buffer: seq<u8>, ver: int, phases: nat)
  {
    if ver == 2 then 8 + phases * 128 <= |buffer| else 8 + phases * 256 <= |buffer|
  }

  /** Entry a of the table after the frame count: nibble a for version 2, byte a otherwise. */
  function PhaseEntry(buffer: seq<u8>, ver: int, a: nat): u8
    requires 8 + (if ver == 2 then a / 2 else a) < |buffer|
  {
    if ver == 2 then ReadUint4(buffer[8..], a) else buffer[8 + a]
  }

  /**
   * dump_phases: luts[k][y][x] is entry k*256 + x*16 + y of the table, the
   * entry the assembler keeps for source level y and destination level x.
   */
  method DumpPhases(buffer: seq<u8>, phases: nat, ver: int) returns (luts: array3<u8>)
    requires Fits(buffer, ver, phases)
    ensures fresh(luts) && luts.Length0 == phases && luts.Length1 == 16 && luts.Length2 == 16
    ensures forall k, y, x | 0 <= k < phases && 0 <= y < 16 && 0 <= x < 16 ::
      luts[k, y, x] == PhaseEntry(buffer, ver, LutIndex(k, y, x))
  {
    luts := new u8[phases, 16, 16];
    var k := 0;
    var i := 0;
    while i < phases * 256
      invariant i == k * 256 && k <= phases
      invariant forall k', y, x | 0 <= k' < k && 0 <= y < 16 && 0 <= x < 16 ::
        luts[k', y, x] == PhaseEntry(buffer, ver, LutIndex(k', y, x))
    {
      DumpPhase(buffer, ver, luts, k, i);
      k := k + 1;
      i := i + 256;
    }
  }

  /** Phase k, whose entries start at i: every source and destination level; other phases keep their values. */
  method DumpPhase(buffer: seq<u8>, ver: int, luts: array3<u8>, k: nat, i: nat)
    requires Fits(buffer, ver, luts.Length0) && k < luts.Length0 && luts.Length1 == 16 && luts.Length2 == 16
    requires i == k * 256
    modifies luts
    ensures forall y, x | 0 <= y < 16 && 0 <= x < 16 :: luts[k, y, x] == PhaseEntry(buffer, ver, LutIndex(k, y, x))
    ensures forall k', y, x | 0 <= k' < luts.Length0 && k' != k && 0 <= y < 16 && 0 <= x < 16 ::
      luts[k', y, x] == old(luts[k', y, x])
  {
    var j := 0;
    for x := 0 to 16
      invariant j == x * 16
      invariant forall y, x' | 0 <= y < 16 && 0 <= x' < x :: luts[k, y, x'] == PhaseEntry(buffer, ver, LutIndex(k, y, x'))
      invariant forall k', y, x' | 0 <= k' < luts.Length0 && k' != k && 0 <= y < 16 && 0 <= x' < 16 ::
        luts[k', y, x'] == old(luts[k', y, x'])
    {
      j := DumpColumn(buffer, ver, luts, k, x, i, j);
    }
  }

  /** Destination level x of phase k: the sixteen source levels, reading entries i + j on. */
  method DumpColumn(buffer: seq<u8>, ver: int, luts: array3<u8>, k: nat, x: nat, i: nat, j: nat) returns (j': nat)
    requires Fits(buffer, ver, luts.Length0) && k < luts.Length0 && luts.Length1 == 16 && x < luts.Length2 == 16
    requires i == k * 256 && j == x * 16
    modifies luts
    ensures j' == j + 16
    ensures forall y | 0 <= y < 16 :: luts[k, y, x] == PhaseEntry(buffer, ver, LutIndex(k, y, x))
    ensures forall k', y, x' | 0 <= k' < luts.Length0 && 0 <= y < 16 && 0 <= x' < 16 ::
      (k' != k || x' != x) ==> luts[k', y, x'] == old(luts[k', y, x'])
  {
    j' := j;
    for y := 0 to 16
      invariant j' == j + y
      invariant forall y' | 0 <= y' < y :: luts[k, y', x] == PhaseEntry(buffer, ver, LutIndex(k, y', x))
      invariant forall k', y', x' | 0 <= k' < luts.Length0 && 0 <= y' < 16 && 0 <= x' < 16 ::
        (k' != k || x' != x) ==> luts[k', y', x'] == old(luts[k', y', x'])
    {
      assert i + j' == LutIndex(k, y, x);
      var val := PhaseEntry(buffer, ver, i + j');
      luts[k, y, x] := val;
      j' := j' + 1;
    }
  }

  // ---------------------------------------------------------------
  // Reading back an assembled block
  // ---------------------------------------------------------------

  /** The other entry of the same byte: the next one for an even position, the previous one for an odd one. */
  function Partner(a: nat): nat
  {
    if a % 2 == 0 then a + 1 else a - 1
  }

  /** In a version 2 table of four-bit values, nibble a holds entry Partner(a). */
  lemma PackedNibble(lut: seq<u8>, a: nat)
    requires a < |lut| && |lut| % 2 == 0 && forall n | 0 <= n < |lut| :: lut[n] < 16
    ensures a / 2 < |LutBytes(lut, 2)| && ReadUint4(LutBytes(lut, 2), a) == lut[Partner(a)]
  {
    var m := a / 2;
    PairNibbles(lut, m);
    if a % 2 == 0 {
      assert a == 2 * m && Partner(a) == 2 * m + 1;
    } else {
      assert a == 2 * m + 1 && Partner(a) == 2 * m;
    }
  }

  /** Byte m of a version 2 table holds entry 2m + 1 at the even nibble and entry 2m at the odd one. */
  lemma PairNibbles(lut: seq<u8>, m: nat)
    requires 2 * m + 1 < |lut| && lut[2 * m] < 16 && lut[2 * m + 1] < 16
    ensures m < |LutBytes(lut, 2)|
    ensures ReadUint4(LutBytes(lut, 2), 2 * m) == lut[2 * m + 1] && ReadUint4(LutBytes(lut, 2), 2 * m + 1) == lut[2 * m]
  {
    var bytes := LutBytes(lut, 2);
    var hi, lo := lut[2 * m], lut[2 * m + 1];
    assert bytes[m] == PackPair(hi, lo);
    PackPairNibbles(hi, lo);
    ReadUint4Pair(bytes, m, lo, hi);
  }

  /**
   * A block the assembler writes dumps back to its table. For version 1
   * every entry comes back in place. For version 2 (four-bit values) the
   * dumper reads each entry from the other half of its byte, so every entry
   * comes back as its partner: the assembler puts the first of a pair in the
   * high half, while the dumper reads an even position from the low half.
   */
  lemma AssembledBlockDumps(frames: nat, lut: seq<u8>, ver: int, k: nat, y: nat, x: nat)
    requires ver == 1 || ver == 2
    requires |lut| == frames * 256 && k < frames && y < 16 && x < 16
    requires ver == 2 ==> forall n | 0 <= n < |lut| :: lut[n] < 16
    ensures Fits(LeBytes(frames, 8) + LutBytes(lut, ver), ver, frames)
    ensures ver == 1 ==> PhaseEntry(LeBytes(frames, 8) + LutBytes(lut, ver), ver, LutIndex(k, y, x)) == lut[LutIndex(k, y, x)]
    ensures ver == 2 ==> PhaseEntry(LeBytes(frames, 8) + LutBytes(lut, ver), ver, LutIndex(k, y, x)) == lut[Partner(LutIndex(k, y, x))]
  {
    var block := LeBytes(frames, 8) + LutBytes(lut, ver);
    assert block[8..] == LutBytes(lut, ver);
    if ver == 2 {
      var half := frames * 128;
      assert |lut| == 2 * half && |lut| % 2 == 0;
      assert LutIndex(k, y, x) < |lut| by {
        assert LutIndex(k, y, x) < k * 256 + 256 <= frames * 256;
      }
      PackedNibble(lut, LutIndex(k, y, x));
    }
  }

  /** With the low-half-first packing every nibble address reads back its own entry. */
  lemma LowFirstNibble(lut: seq<u8>, a: nat)
    requires a < |lut| && |lut| % 2 == 0 && forall n | 0 <= n < |lut| :: lut[n] < 16
    ensures a / 2 < |LowFirstBytes(lut)| && ReadUint4(LowFirstBytes(lut), a) == lut[a]
  {
    var m := a / 2;
    var bytes := LowFirstBytes(lut);
    assert bytes[m] == NibblePair(lut[2 * m], lut[2 * m + 1]);
    ReadUint4Pair(bytes, m, lut[2 * m], lut[2 * m + 1]);
  }

  /**
   * A version 2 block packed low half first dumps back to its table with
   * every entry in place: the round trip the assembler and dumper intend.
   */
  lemma CorrectedBlockDumps(frames: nat, lut: seq<u8>, k: nat, y: nat, x: nat)
    requires |lut| == frames * 256 && k < frames && y < 16 && x < 16
    requires forall n | 0 <= n < |lut| :: lut[n] < 16
    ensures Fits(LeBytes(frames, 8) + LowFirstBytes(lut), 2, frames)
    ensures PhaseEntry(LeBytes(frames, 8) + LowFirstBytes(lut), 2, LutIndex(k, y, x)) == lut[LutIndex(k, y, x)]
  {
    var block := LeBytes(frames, 8) + LowFirstBytes(lut);
    assert block[8..] == LowFirstBytes(lut);
    assert LutIndex(k, y, x) < |lut| by {
      assert LutIndex(k, y, x) < k * 256 + 256 <= frames * 256;
    }
    LowFirstNibble(lut, LutIndex(k, y, x));
  }

  /** The frame count at the head of an assembled block reads back. */
  lemma AssembledBlockFrames(frames: nat, lut: seq<u8>, ver: int)
    requires frames < Pow256(8)
    ensures ReadUint64Le(LeBytes(frames, 8) + LutBytes(lut, ver)) == frames
  {
    ReadBack(LeBytes(frames, 8) + LutBytes(lut, ver), frames);
  }
}
