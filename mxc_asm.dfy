// The i.MX EPDC waveform assembler: range parsing, filling each look-up
// table from the parsed rows of its CSV file, packing tables for the
// EPDC version and laying out the offset tables and data blocks.

module MxcAsm {

  import opened Words
  import opened WaveBytes
  import opened CText

  /** sizeof(waveform_data_header_t): seven 32-bit words and 20 bytes of packed fields. */
  const HEADER_SIZE: nat := 48
  /** Value of every table entry no row of the CSV file sets. */
  const PREFILL: u8 := 3

  // ---------------------------------------------------------------
  // parse_range
  // ---------------------------------------------------------------

  /**
   * parse_range: "a:b" names the range a..b; text without a colon names
   * the single value it starts with. Both ends are read with atoi.
   */
  function ParseRange(s: seq<char>): (r: (int, int))
    ensures r.0 == Atoi(s)
    ensures ':' !in s ==> r.1 == r.0
  {
    match IndexOf(s, ':')
    case Some(i) => (Atoi(s), Atoi(s[i + 1..]))
    case None => (Atoi(s), Atoi(s))
  }

  lemma IndexOfAfterDigits(d: seq<char>, rest: seq<char>)
    requires forall i :: 0 <= i < |d| ==> IsDigit(d[i])
    requires rest != [] && rest[0] == ':'
    ensures IndexOf(d + rest, ':') == Some(|d|)
  {
    if d != [] {
      assert (d + rest)[1..] == d[1..] + rest;
      IndexOfAfterDigits(d[1..], rest);
    }
  }

  /** "a:b" written in decimal parses back to the range (a, b). */
  lemma ParseRangeOfRange(a: nat, b: nat)
    ensures ParseRange(Decimal(a) + [':'] + Decimal(b)) == (a, b)
  {
    var da, db := Decimal(a), Decimal(b);
    var rest := [':'] + db;
    var s := da + rest;
    assert s == Decimal(a) + [':'] + Decimal(b);
    IndexOfAfterDigits(da, rest);
    AtoiDecimal(a, rest);
    assert s[|da| + 1..] == db + [];
    AtoiDecimal(b, []);
  }

  /** A single decimal number parses to the one-value range (a, a). */
  lemma ParseRangeOfValue(a: nat)
    ensures ParseRange(Decimal(a)) == (a, a)
  {
    assert Decimal(a) == Decimal(a) + [];
    AtoiDecimal(a, []);
  }

  // ---------------------------------------------------------------
  // Table entries
  // ---------------------------------------------------------------

  /** Position of the entry for a transition src -> dst in a given frame: frame*256 + dst*16 + src. */
  function LutIndex(frame: nat, src: nat, dst: nat): nat
    requires src < 16 && dst < 16
  {
    frame * 256 + dst * 16 + src
  }

  /** The frame, source and destination level are read back from an index: the layout is one-to-one. */
  lemma LutIndexFields(frame: nat, src: nat, dst: nat)
    requires src < 16 && dst < 16
    ensures LutIndex(frame, src, dst) / 256 == frame
    ensures LutIndex(frame, src, dst) % 16 == src
    ensures LutIndex(frame, src, dst) / 16 % 16 == dst
  {
    var k := LutIndex(frame, src, dst);
    DivModSum(frame, dst * 16 + src, 256);
    DivModSum(frame * 16 + dst, src, 16);
    DivModSum(frame, dst, 16);
  }

  /** Every index is the position of exactly the entry its fields name. */
  lemma LutIndexOfFields(k: nat)
    ensures LutIndex(k / 256, k % 16, k / 16 % 16) == k
  {
    DivDiv(k, 16, 16);
  }

  // ---------------------------------------------------------------
  // load_waveform_csv
  // ---------------------------------------------------------------

  /** The parsed fields of one CSV line; None when parse_csv rejects the line. */
  type Line = Option<seq<seq<char>>>

  /** A line that sets entries: it was parsed and has a source and a destination range. */
  predicate Used(line: Line)
  {
    line.Some? && |line.value| >= 2
  }

  /** A range whose loop stays inside the 16 grey levels (an empty range writes nothing). */
  predicate LevelRange(r: (int, int))
  {
    r.0 > r.1 || (0 <= r.0 && r.1 < 16)
  }

  /** Every used line names source and destination ranges inside the table. */
  predicate RangesInTable(lines: seq<Line>)
  {
    forall n | 0 <= n < |lines| && Used(lines[n]) ::
      LevelRange(ParseRange(lines[n].value[0])) && LevelRange(ParseRange(lines[n].value[1]))
  }

  /** Every used line has a value field for each of the frame_count frames. */
  predicate LongEnough(lines: seq<Line>, frames: nat)
  {
    forall n | 0 <= n < |lines| && Used(lines[n]) :: |lines[n].value| >= frames + 2
  }

  /** Whether entry k is for a source level in s0..s1 and a destination level in d0..d1. */
  predicate InRanges(k: nat, s0: int, s1: int, d0: int, d1: int)
  {
    s0 <= k % 16 <= s1 && d0 <= k / 16 % 16 <= d1
  }

  /** Whether entry k lies in the frames and the source/destination ranges of a row. */
  predicate Covers(fields: seq<seq<char>>, frames: nat, k: nat)
    requires |fields| >= 2
  {
    var src := ParseRange(fields[0]);
    var dst := ParseRange(fields[1]);
    k / 256 < frames && InRanges(k, src.0, src.1, dst.0, dst.1)
  }

  /** The value a row gives frame i: atoi of field i + 2, truncated to eight bits. */
  function FrameValue(fields: seq<seq<char>>, i: nat): u8
    requires i + 2 < |fields|
  {
    Atoi(fields[i + 2]) % 256
  }

  /** Entry k after a row: the row's value for its frame if the row covers it, else the previous value v. */
  function RowEntry(v: u8, fields: seq<seq<char>>, frames: nat, k: nat): u8
    requires |fields| >= frames + 2
  {
    if Covers(fields, frames, k) then FrameValue(fields, k / 256) else v
  }

  /** The table after one row: every entry the row covers takes the row's value for that frame. */
  function ApplyRow(lut: seq<u8>, fields: seq<seq<char>>, frames: nat): (r: seq<u8>)
    requires |fields| >= frames + 2
    ensures |r| == |lut|
  {
    seq(|lut|, k requires 0 <= k < |lut| => RowEntry(lut[k], fields, frames, k))
  }

  /** The table load_waveform_csv builds from the lines of a file, in file order. */
  function LoadedLut(lines: seq<Line>, frames: nat): (r: seq<u8>)
    requires LongEnough(lines, frames)
    ensures |r| == frames * 256
  {
    if lines == [] then seq(frames * 256, _ => PREFILL)
    else
      var init := lines[..|lines| - 1];
      var last := lines[|lines| - 1];
      assert LongEnough(init, frames) by {
        forall n | 0 <= n < |init| && Used(init[n]) ensures |init[n].value| >= frames + 2 {
          assert init[n] == lines[n];
        }
      }
      if Used(last) then ApplyRow(LoadedLut(init, frames), last.value, frames) else LoadedLut(init, frames)
  }

  /** Reference reading of the same file: the value of the last used line covering entry k, if any. */
  function LastWriter(lines: seq<Line>, frames: nat, k: nat): Option<u8>
    requires LongEnough(lines, frames)
  {
    if lines == [] then None
    else
      var last := lines[|lines| - 1];
      if Used(last) && Covers(last.value, frames, k) then Some(FrameValue(last.value, k / 256))
      else
        assert LongEnough(lines[..|lines| - 1], frames) by {
          forall n | 0 <= n < |lines| - 1 && Used(lines[n]) ensures |lines[..|lines| - 1][n].value| >= frames + 2 {
          }
        }
        LastWriter(lines[..|lines| - 1], frames, k)
  }

  /** Each entry holds the value of the last row that covers it, and 3 where no row does. */
  lemma {:induction false} LoadedLutEntry(lines: seq<Line>, frames: nat, k: nat)
    requires LongEnough(lines, frames) && k < frames * 256
    ensures LoadedLut(lines, frames)[k] == match LastWriter(lines, frames, k) case None => PREFILL case Some(v) => v
  {
    if lines != [] {
      var init := lines[..|lines| - 1];
      assert LongEnough(init, frames) by {
        forall n | 0 <= n < |init| && Used(init[n]) ensures |init[n].value| >= frames + 2 {
          assert init[n] == lines[n];
        }
      }
      LoadedLutEntry(init, frames, k);
    }
  }

  /**
   * The guard load_waveform_csv checks before reading the value of frame i:
   * field i of the row exists. The value it then reads is field i + 2.
   */
  predicate FrameGuardAsWritten(fields: seq<seq<char>>, i: nat)
  {
    i < |fields|
  }

  /**
   * A row "0,0" of a one-frame table passes the guard for frame 0, yet the
   * value field 2 it reads is the array's NULL terminator.
   */
  lemma ShortRowPassesGuardAsWritten(fields: seq<seq<char>>, frames: nat)
    requires fields == ["0", "0"] && frames == 1
    ensures forall i | 0 <= i < frames :: FrameGuardAsWritten(fields, i)
    ensures !LongEnough([Some(fields)], frames)
  {
    assert Used([Some(fields)][0]);
  }

  /** Fills the entries of one frame with source level src and destination levels d0..d1. */
  method FillSource(lut: array<u8>, frame: nat, src: int, d0: int, d1: int, val: u8)
    requires 0 <= src < 16 && LevelRange((d0, d1)) && frame * 256 + 256 <= lut.Length
    modifies lut
    ensures forall k | 0 <= k < lut.Length ::
      lut[k] == if k / 256 == frame && k % 16 == src && d0 <= k / 16 % 16 <= d1 then val else old(lut[k])
  {
    var dst := d0;
    while dst <= d1
      invariant dst == d0 || d0 <= dst <= d1 + 1
      invariant forall k | 0 <= k < lut.Length ::
        lut[k] == if k / 256 == frame && k % 16 == src && d0 <= k / 16 % 16 < dst then val else old(lut[k])
    {
      LutIndexFields(frame, src, dst);
      lut[LutIndex(frame, src, dst)] := val;
      forall k | 0 <= k < lut.Length && k / 256 == frame && k % 16 == src && k / 16 % 16 == dst
        ensures k == LutIndex(frame, src, dst)
      {
        LutIndexOfFields(k);
      }
      dst := dst + 1;
    }
  }

  /** Fills the entries of one frame with source levels s0..s1 and destination levels d0..d1. */
  method FillFrame(lut: array<u8>, frame: nat, s0: int, s1: int, d0: int, d1: int, val: u8)
    requires LevelRange((s0, s1)) && LevelRange((d0, d1)) && frame * 256 + 256 <= lut.Length
    modifies lut
    ensures forall k | 0 <= k < lut.Length ::
      lut[k] == if k / 256 == frame && InRanges(k, s0, s1, d0, d1) then val else old(lut[k])
  {
    var src := s0;
    while src <= s1
      invariant src == s0 || s0 <= src <= s1 + 1
      invariant forall k | 0 <= k < lut.Length ::
        lut[k] == if k / 256 == frame && s0 <= k % 16 < src && d0 <= k / 16 % 16 <= d1 then val else old(lut[k])
    {
      FillSource(lut, frame, src, d0, d1, val);
      src := src + 1;
    }
  }

  /** The loops of load_waveform_csv for one row: every frame of the row's ranges takes the row's value. */
  method FillRow(lut: array<u8>, frames: nat, fields: seq<seq<char>>)
    requires lut.Length == frames * 256 && |fields| >= frames + 2
    requires LevelRange(ParseRange(fields[0])) && LevelRange(ParseRange(fields[1]))
    modifies lut
    ensures forall k | 0 <= k < lut.Length :: lut[k] == RowEntry(old(lut[k]), fields, frames, k)
  {
    var (s0, s1) := ParseRange(fields[0]);
    var (d0, d1) := ParseRange(fields[1]);
    for i := 0 to frames
      invariant forall k | 0 <= k < lut.Length ::
        lut[k] == if k / 256 < i && Covers(fields, frames, k) then FrameValue(fields, k / 256) else old(lut[k])
    {
      var val := FrameValue(fields, i);
      FillFrame(lut, i, s0, s1, d0, d1, val);
    }
  }

  /** A table whose every entry is the row's entry over before is ApplyRow of before. */
  lemma RowApplied(before: seq<u8>, after: seq<u8>, fields: seq<seq<char>>, frames: nat)
    requires |fields| >= frames + 2 && |after| == |before|
    requires forall k | 0 <= k < |after| :: after[k] == RowEntry(before[k], fields, frames, k)
    ensures after == ApplyRow(before, fields, frames)
  {
  }

  /** One more line loaded: the prefix stays long enough when that line is, and its table takes the line's row. */
  lemma LoadedPrefix(lines: seq<Line>, n: nat, frames: nat)
    requires n < |lines| && LongEnough(lines[..n], frames) && (Used(lines[n]) ==> |lines[n].value| >= frames + 2)
    ensures LongEnough(lines[..n + 1], frames)
    ensures LoadedLut(lines[..n + 1], frames)
      == if Used(lines[n]) then ApplyRow(LoadedLut(lines[..n], frames), lines[n].value, frames) else LoadedLut(lines[..n], frames)
  {
    var done := lines[..n + 1];
    assert done[..n] == lines[..n];
    forall m | 0 <= m < n + 1 && Used(done[m]) ensures |done[m].value| >= frames + 2 {
      if m < n {
        assert done[m] == lines[..n][m];
      }
    }
  }

  /**
   * load_waveform_csv over the parsed lines of a file, with the guard on
   * the value field it reads: prefill with 3, then apply every used line in
   * order. Fails when a used line has fewer than frame_count value fields.
   */
  method LoadWaveform(lut: array<u8>, frames: nat, lines: seq<Line>) returns (ok: bool)
    requires lut.Length == frames * 256 && RangesInTable(lines)
    modifies lut
    ensures ok == LongEnough(lines, frames)
    ensures ok ==> lut[..] == LoadedLut(lines, frames)
  {
    forall k | 0 <= k < lut.Length {
      lut[k] := PREFILL;
    }
    for n := 0 to |lines|
      invariant LongEnough(lines[..n], frames)
      invariant lut[..] == LoadedLut(lines[..n], frames)
    {
      var line := lines[n];
      if line.Some? && |line.value| >= 2 {
        if |line.value| < frames + 2 {
          assert !LongEnough(lines, frames) by {
            assert Used(lines[n]);
          }
          return false;
        }
        ghost var before := lut[..];
        FillRow(lut, frames, line.value);
        RowApplied(before, lut[..], line.value, frames);
      }
      LoadedPrefix(lines, n, frames);
    }
    assert lines[..|lines|] == lines;
    return true;
  }

  // ---------------------------------------------------------------
  // copy_lut
  // ---------------------------------------------------------------

  /**
   * One packed EPDCv2 byte: the eight-bit shift of hi by four, or-ed with lo.
   * The high half keeps hi's low four bits together with whatever lo has above
   * its low four; the low half is lo's.
   */
  function PackPair(hi: u8, lo: u8): u8
  {
    assert Pow2(4) == 16;
    BitOrBelow(hi % 16, lo / 16, 4);
    NibblePair(lo % 16, BitOr(hi % 16, lo / 16))
  }

  /** For table values that fit four bits, hi fills the high half and lo the low half. */
  lemma PackPairNibbles(hi: u8, lo: u8)
    requires hi < 16 && lo < 16
    ensures PackPair(hi, lo) == NibblePair(lo, hi)
  {
  }

  /** Bytes in the EPDC's table format: the table itself for version 1, else one byte per pair of entries. */
  function LutBytes(src: seq<u8>, ver: int): (r: seq<u8>)
    ensures |r| == if ver == 1 then |src| else |src| / 2
  {
    if ver == 1 then src else seq(|src| / 2, m requires 0 <= m < |src| / 2 => PackPair(src[2 * m], src[2 * m + 1]))
  }

  /**
   * The version 2 packing the dumpers read back in place: the entry at an
   * even position in the low half of its byte and the next one in the high
   * half, the order of read_uint4 in both dump utilities.
   */
  function LowFirstBytes(src: seq<u8>): (r: seq<u8>)
    requires forall n | 0 <= n < |src| :: src[n] < 16
    ensures |r| == |src| / 2
  {
    seq(|src| / 2, m requires 0 <= m < |src| / 2 => NibblePair(src[2 * m], src[2 * m + 1]))
  }

  /**
   * A version 2 table of four-bit values keeps every entry: the entry at
   * an even position is in the high half of its byte and the next one in
   * the low half.
   */
  lemma LutBytesPairs(src: seq<u8>, m: nat)
    requires 2 * m + 1 < |src| && src[2 * m] < 16 && src[2 * m + 1] < 16
    ensures LutBytes(src, 2)[m] / 16 == src[2 * m] && LutBytes(src, 2)[m] % 16 == src[2 * m + 1]
  {
    PackPairNibbles(src[2 * m], src[2 * m + 1]);
    DivModSum(src[2 * m], src[2 * m + 1], 16);
  }

  /**
   * copy_lut: writes the table at dst[at..] in the EPDC's format, the
   * memcpy for version 1 and the pairing loop otherwise; the rest of dst
   * is unchanged.
   */
  method CopyLut(dst: array<u8>, at: nat, src: seq<u8>, ver: int)
    requires at + |LutBytes(src, ver)| <= dst.Length
    modifies dst
    ensures dst[at..at + |LutBytes(src, ver)|] == LutBytes(src, ver)
    ensures dst[..at] == old(dst[..at]) && dst[at + |LutBytes(src, ver)|..] == old(dst[at + |LutBytes(src, ver)|..])
  {
    if ver == 1 {
      CopyBytes(dst, at, src);
    } else {
      PackLut(dst, at, src);
    }
  }

  /** The memcpy of copy_lut for version 1. */
  method CopyBytes(dst: array<u8>, at: nat, src: seq<u8>)
    requires at + |src| <= dst.Length
    modifies dst
    ensures dst[at..at + |src|] == src
    ensures dst[..at] == old(dst[..at]) && dst[at + |src|..] == old(dst[at + |src|..])
  {
    forall k | 0 <= k < |src| {
      dst[at + k] := src[k];
    }
  }

  /** The pairing loop of copy_lut for version 2. */
  method PackLut(dst: array<u8>, at: nat, src: seq<u8>)
    requires at + |src| / 2 <= dst.Length
    modifies dst
    ensures dst[at..at + |src| / 2] == LutBytes(src, 2)
    ensures dst[..at] == old(dst[..at]) && dst[at + |src| / 2..] == old(dst[at + |src| / 2..])
  {
    var n := |src| / 2;
    for m := 0 to n
      invariant forall j | 0 <= j < m :: dst[at + j] == PackPair(src[2 * j], src[2 * j + 1])
      invariant dst[..at] == old(dst[..at]) && dst[at + n..] == old(dst[at + n..])
    {
      var hi := src[2 * m];
      var lo := src[2 * m + 1];
      dst[at + m] := PackPair(hi, lo);
    }
    assert dst[at..at + n] == LutBytes(src, 2);
  }

  // ---------------------------------------------------------------
  // File layout
  // ---------------------------------------------------------------

  /** Bytes of one table frame: 256 for EPDCv1, 128 for EPDCv2. */
  function LutSize(ver: int): nat
  {
    if ver == 1 then 256 else 128
  }

  /** The data block of one mode and temperature range: its 8-byte frame count and its frames. */
  function BlockSize(frames: nat, ver: int): nat
  {
    if ver == 1 then frames * 256 + 8 else frames * 128 + 8
  }

  /** A block holds exactly its frame count and the packed table of its frames. */
  lemma BlockHoldsTable(frames: nat, src: seq<u8>, ver: int)
    requires |src| == frames * 256
    ensures BlockSize(frames, ver) == 8 + |LutBytes(src, ver)|
  {
  }

  /** The data blocks of one mode's row of temperature ranges, laid end to end. */
  function Blocks(row: seq<nat>, ver: int): nat
  {
    if row == [] then 0 else Blocks(row[..|row| - 1], ver) + BlockSize(row[|row| - 1], ver)
  }

  /** Every mode has a frame count for each of the temps temperature ranges. */
  predicate Rectangular(counts: seq<seq<nat>>, temps: nat)
  {
    forall i | 0 <= i < |counts| :: |counts[i]| == temps
  }

  /**
   * Offset, from the start of the offset tables, of mode i's table of
   * temperature offsets: after the mode table (8 bytes per mode) and every
   * earlier mode's table and data blocks.
   */
  function ModeStart(counts: seq<seq<nat>>, temps: nat, ver: int, i: nat): nat
    requires i <= |counts|
  {
    if i == 0 then 8 * |counts|
    else ModeStart(counts, temps, ver, i - 1) + 8 * temps + Blocks(counts[i - 1], ver)
  }

  /** Offset of the data block of mode i, temperature range j: after its mode's table and earlier blocks. */
  function DataStart(counts: seq<seq<nat>>, temps: nat, ver: int, i: nat, j: nat): nat
    requires i < |counts| && j <= |counts[i]|
  {
    ModeStart(counts, temps, ver, i) + 8 * temps + Blocks(counts[i][..j], ver)
  }

  /** Size of the whole file: header, temperature table, its padding byte and the offset region. */
  function FileSize(counts: seq<seq<nat>>, temps: nat, ver: int): nat
  {
    HEADER_SIZE + temps + 1 + ModeStart(counts, temps, ver, |counts|)
  }

  /**
   * The size computation of the assembler's main: mode i's temperature
   * table starts where the previous mode ended, each data block follows the
   * previous one, and the total adds header, temperature table and padding.
   */
  method Layout(counts: seq<seq<nat>>, temps: nat, ver: int) returns (modeOffsets: array<nat>, dataOffsets: array2<nat>, total: nat)
    requires Rectangular(counts, temps)
    ensures fresh(modeOffsets) && fresh(dataOffsets)
    ensures modeOffsets.Length == |counts| && dataOffsets.Length0 == |counts| && dataOffsets.Length1 == temps
    ensures forall i | 0 <= i < |counts| :: modeOffsets[i] == ModeStart(counts, temps, ver, i)
    ensures forall i, j | 0 <= i < |counts| && 0 <= j < temps :: dataOffsets[i, j] == DataStart(counts, temps, ver, i, j)
    ensures total == FileSize(counts, temps, ver)
  {
    var modes := |counts|;
    modeOffsets := new nat[modes];
    dataOffsets := new nat[modes, temps];
    total := 8 * modes;
    for i := 0 to modes
      invariant total == ModeStart(counts, temps, ver, i)
      invariant forall i' | 0 <= i' < i :: modeOffsets[i'] == ModeStart(counts, temps, ver, i')
      invariant forall i', j | 0 <= i' < i && 0 <= j < temps :: dataOffsets[i', j] == DataStart(counts, temps, ver, i', j)
    {
      total := LayoutStep(counts, temps, ver, i, modeOffsets, dataOffsets, total);
    }
    total := total + HEADER_SIZE + temps + 1;
  }

  /** One pass of the outer loop: mode i's offset, its data blocks' offsets, and the running total past them. */
  method LayoutStep(counts: seq<seq<nat>>, temps: nat, ver: int, i: nat, modeOffsets: array<nat>, dataOffsets: array2<nat>, total: nat)
    returns (next: nat)
    requires Rectangular(counts, temps) && i < |counts|
    requires modeOffsets.Length == |counts| && dataOffsets.Length0 == |counts| && dataOffsets.Length1 == temps
    requires total == ModeStart(counts, temps, ver, i)
    requires forall i' | 0 <= i' < i :: modeOffsets[i'] == ModeStart(counts, temps, ver, i')
    requires forall i', j | 0 <= i' < i && 0 <= j < temps :: dataOffsets[i', j] == DataStart(counts, temps, ver, i', j)
    modifies modeOffsets, dataOffsets
    ensures next == ModeStart(counts, temps, ver, i + 1)
    ensures forall i' | 0 <= i' < i + 1 :: modeOffsets[i'] == ModeStart(counts, temps, ver, i')
    ensures forall i', j | 0 <= i' < i + 1 && 0 <= j < temps :: dataOffsets[i', j] == DataStart(counts, temps, ver, i', j)
  {
    modeOffsets[i] := total;
    next := total + 8 * temps;
    ghost var written := modeOffsets[..];
    LayoutMode(counts, temps, ver, i, dataOffsets, next);
    assert modeOffsets[..] == written;
    next := next + Blocks(counts[i], ver);
  }

  /** The inner loop for mode i: the offsets of its data blocks, from base on. */
  method LayoutMode(counts: seq<seq<nat>>, temps: nat, ver: int, i: nat, dataOffsets: array2<nat>, base: nat)
    requires Rectangular(counts, temps) && i < |counts|
    requires dataOffsets.Length0 == |counts| && dataOffsets.Length1 == temps
    requires base == ModeStart(counts, temps, ver, i) + 8 * temps
    modifies dataOffsets
    ensures forall j | 0 <= j < temps :: dataOffsets[i, j] == DataStart(counts, temps, ver, i, j)
    ensures forall i', j | 0 <= i' < |counts| && i' != i && 0 <= j < temps :: dataOffsets[i', j] == old(dataOffsets[i', j])
  {
    var total := base;
    for j := 0 to temps
      invariant total == base + Blocks(counts[i][..j], ver)
      invariant forall j' | 0 <= j' < j :: dataOffsets[i, j'] == DataStart(counts, temps, ver, i, j')
      invariant forall i', j' | 0 <= i' < |counts| && i' != i && 0 <= j' < temps :: dataOffsets[i', j'] == old(dataOffsets[i', j'])
    {
      dataOffsets[i, j] := total;
      assert counts[i][..j + 1][..j] == counts[i][..j];
      total := total + BlockSize(counts[i][j], ver);
    }
    assert counts[i][..temps] == counts[i];
  }

  /** A later prefix of a row holds every earlier block whole. */
  lemma {:induction false} BlocksGrow(row: seq<nat>, ver: int, j: nat, j2: nat)
    requires j < j2 <= |row|
    ensures Blocks(row[..j], ver) + BlockSize(row[j], ver) <= Blocks(row[..j2], ver)
  {
    var p := row[..j2];
    assert p[..j2 - 1] == row[..j2 - 1];
    if j2 - 1 > j {
      BlocksGrow(row, ver, j, j2 - 1);
    }
  }

  /** Mode i's table and blocks all lie before any later mode's table. */
  lemma {:induction false} ModeStartGrows(counts: seq<seq<nat>>, temps: nat, ver: int, i: nat, i2: nat)
    requires i < i2 <= |counts|
    ensures ModeStart(counts, temps, ver, i) + 8 * temps + Blocks(counts[i], ver) <= ModeStart(counts, temps, ver, i2)
  {
    if i2 - 1 > i {
      ModeStartGrows(counts, temps, ver, i, i2 - 1);
    }
  }

  /** The mode table comes first: every mode's table starts at or after 8 bytes per mode. */
  lemma {:induction false} ModeTableFirst(counts: seq<seq<nat>>, temps: nat, ver: int, i: nat)
    requires i <= |counts|
    ensures 8 * |counts| <= ModeStart(counts, temps, ver, i)
  {
    if i > 0 {
      ModeTableFirst(counts, temps, ver, i - 1);
    }
  }

  /** The block of mode i, range j ends before the next mode's table. */
  lemma BlockInMode(counts: seq<seq<nat>>, temps: nat, ver: int, i: nat, j: nat)
    requires Rectangular(counts, temps) && i < |counts| && j < temps
    ensures DataStart(counts, temps, ver, i, j) + BlockSize(counts[i][j], ver) <= ModeStart(counts, temps, ver, i + 1)
  {
    BlocksGrow(counts[i], ver, j, temps);
    assert counts[i][..temps] == counts[i];
  }

  /**
   * The layout never overlaps: a block ends before every block that comes
   * later in mode-then-temperature order (so data offsets strictly
   * increase), and before the temperature table of every later mode; the
   * mode table precedes all tables, and every block lies inside the file.
   */
  lemma LayoutDisjoint(counts: seq<seq<nat>>, temps: nat, ver: int, i: nat, j: nat, i2: nat, j2: nat)
    requires Rectangular(counts, temps) && i < |counts| && j < temps && i2 < |counts| && j2 < temps
    requires i < i2 || (i == i2 && j < j2)
    ensures DataStart(counts, temps, ver, i, j) + BlockSize(counts[i][j], ver) <= DataStart(counts, temps, ver, i2, j2)
    ensures DataStart(counts, temps, ver, i, j) < DataStart(counts, temps, ver, i2, j2)
    ensures i < i2 ==> DataStart(counts, temps, ver, i, j) + BlockSize(counts[i][j], ver) <= ModeStart(counts, temps, ver, i2)
  {
    if i < i2 {
      BlockInMode(counts, temps, ver, i, j);
      if i + 1 < i2 {
        ModeStartGrows(counts, temps, ver, i + 1, i2);
      }
    } else {
      BlocksGrow(counts[i], ver, j, j2);
    }
  }

  /** Every table and block lies inside the file the assembler allocates. */
  lemma LayoutFits(counts: seq<seq<nat>>, temps: nat, ver: int, i: nat, j: nat)
    requires Rectangular(counts, temps) && i < |counts| && j < temps
    ensures 8 * |counts| <= ModeStart(counts, temps, ver, i)
    ensures HEADER_SIZE + temps + 1 + DataStart(counts, temps, ver, i, j) + BlockSize(counts[i][j], ver) <= FileSize(counts, temps, ver)
  {
    ModeTableFirst(counts, temps, ver, i);
    BlockInMode(counts, temps, ver, i, j);
    if i + 1 < |counts| {
      ModeStartGrows(counts, temps, ver, i + 1, |counts|);
    }
  }

  // ---------------------------------------------------------------
  // Header
  // ---------------------------------------------------------------

  /** The header's eight-bit trc and mc fields: the number of temperature ranges (or modes) less one. */
  function CountField(n: nat): (f: u8)
    ensures 1 <= n <= 256 ==> f + 1 == n
  {
    (n - 1) % 256
  }
}
