// The E Ink .wbf waveform-file reader: checksummed 24-bit pointers, the
// CRC-32 over the file (the reflected polynomial 0xEDB88320 of ISO 3309),
// the run-length block decoder, the assignment of table ids to waveform
// tables, and the unpacking of decoded tables into per-phase look-up tables.

module WbfDump {

  import opened Words
  import opened WaveBytes

  // ---------------------------------------------------------------
  // Pointers
  // ---------------------------------------------------------------

  /** A table pointer: its 24-bit address and whether its check byte matched. */
  datatype Pointer = Pointer(addr: nat, checksumOk: bool)

  /**
   * read_pointer: bytes 0..2 are a little-endian address and byte 3 is the
   * mod-256 sum of the three. A mismatch is only reported; the address is
   * returned either way.
   */
  function ReadPointer(p: seq<u8>): (r: Pointer)
    requires |p| >= 4
    ensures r.addr < 0x100_0000
  {
    AddressBound(p);
    Pointer(LeValue(p[..3]), (p[0] as int + p[1] + p[2]) % 256 == p[3])
  }

  lemma AddressBound(p: seq<u8>)
    requires |p| >= 3
    ensures LeValue(p[..3]) < 0x100_0000
  {
    LeValueBound(p[..3]);
  }

  /** The four bytes a well-formed pointer to addr occupies. */
  function EncodePointer(addr: nat): (p: seq<u8>)
    requires addr < 0x100_0000
    ensures |p| == 4
  {
    var b := LeBytes(addr, 3);
    b + [(b[0] as int + b[1] + b[2]) % 256]
  }

  /** A pointer written by EncodePointer reads back as the same address with a good checksum. */
  lemma ReadEncodedPointer(addr: nat)
    requires addr < 0x100_0000
    ensures ReadPointer(EncodePointer(addr)) == Pointer(addr, true)
  {
    var p := EncodePointer(addr);
    assert p[..3] == LeBytes(addr, 3);
    LeValueOfBytes(addr, 3);
  }

  /** Conversely, a pointer whose checksum matches is exactly the encoding of its address. */
  lemma CheckedPointerIsEncoded(p: seq<u8>)
    requires |p| >= 4 && ReadPointer(p).checksumOk
    ensures EncodePointer(ReadPointer(p).addr) == p[..4]
  {
    LeBytesOfValue(p[..3]);
  }

  // ---------------------------------------------------------------
  // CRC-32
  // ---------------------------------------------------------------

  const CRC_POLY: bv32 := 0xEDB8_8320

  /**
   * k steps of the bitwise division of register c by the reflected
   * polynomial: each step shifts the low bit out and, when it was set,
   * subtracts (xors) the polynomial.
   */
  function CrcBits(c: bv32, k: nat): bv32
  {
    if k == 0 then c
    else
      var p := CrcBits(c, k - 1);
      (p >> 1) ^ (if p & 1 == 1 then CRC_POLY else 0)
  }

  /** The meaning of table entry n: n divided through one byte, eight bit steps. */
  function CrcByte(n: bv32): bv32
  {
    CrcBits(n, 8)
  }

  ghost predicate IsCrcTable(table: array<bv32>)
    reads table
  {
    table.Length == 256 && forall n: bv32 :: n < 256 ==> table[n as int] == CrcByte(n)
  }

  /** compute_crc_table: entry n is n run through eight bit steps of the division. */
  method ComputeCrcTable(table: array<bv32>)
    requires table.Length == 256
    modifies table
    ensures IsCrcTable(table)
  {
    var n := 0;
    while n < 256
      invariant 0 <= n <= 256
      invariant forall m :: 0 <= m < n ==> table[m] == CrcByte(m as bv32)
    {
      var c: bv32 := n as bv32;
      var k := 0;
      while k < 8
        invariant 0 <= k <= 8
        invariant c == CrcBits(n as bv32, k)
      {
        if c & 1 == 1 {
          c := CRC_POLY ^ (c >> 1);
        } else {
          c := c >> 1;
        }
        k := k + 1;
      }
      table[n] := c;
      n := n + 1;
    }
    forall m: bv32 | m < 256
      ensures table[m as int] == CrcByte(m)
    {
      assert (m as int) as bv32 == m;
    }
  }

  /**
   * update_crc reads each byte into a plain char, which is signed here, so
   * bytes from 0x80 up are sign-extended when xor-ed into the register.
   */
  function CharBits(b: u8): bv32
  {
    if b < 0x80 then b as bv32 else (b as bv32) | 0xffff_ff00
  }

  /** The table entry one data byte selects: the low byte of register xor data. */
  function TableIndex(c: bv32, b: u8): (i: bv32)
    ensures i < 256
  {
    (c ^ (b as bv32)) & 0xff
  }

  /** The sign extension only touches bits the table index masks away. */
  lemma CharBitsIndex(c: bv32, b: u8)
    ensures (c ^ CharBits(b)) & 0xff == TableIndex(c, b)
  {
  }

  /** One byte of the table-driven CRC: look up the low byte of register xor data, shift the rest down. */
  function TableStep(c: bv32, b: u8): bv32
  {
    CrcByte(TableIndex(c, b)) ^ (c >> 8)
  }

  /** The look-up update_crc makes, with its sign-extended char, is one TableStep. */
  function TableLookup(table: array<bv32>, c: bv32, b: u8): (r: bv32)
    reads table
    requires IsCrcTable(table)
    ensures r == TableStep(c, b)
  {
    CharBitsIndex(c, b);
    table[((c ^ CharBits(b)) & 0xff) as int] ^ (c >> 8)
  }

  /** The register after feeding the bytes of data, in order, from register c. */
  function CrcRegister(c: bv32, data: seq<u8>): bv32
  {
    if data == [] then c else TableStep(CrcRegister(c, data[..|data| - 1]), data[|data| - 1])
  }

  /** The pre- and post-inversion of the register. */
  function Mask(x: bv32): bv32
  {
    x ^ 0xffff_ffff
  }

  lemma MaskMask(x: bv32)
    ensures Mask(Mask(x)) == x
  {
  }

  /** The CRC-32 of data, continued from the CRC crc of what came before. */
  function Crc32Update(crc: bv32, data: seq<u8>): bv32
  {
    Mask(CrcRegister(Mask(crc), data))
  }

  lemma {:induction false} CrcRegisterConcat(c: bv32, a: seq<u8>, b: seq<u8>)
    ensures CrcRegister(CrcRegister(c, a), b) == CrcRegister(c, a + b)
  {
    if b == [] {
      assert a + b == a;
    } else {
      assert (a + b)[..|a + b| - 1] == a + b[..|b| - 1];
      assert (a + b)[|a + b| - 1] == b[|b| - 1];
      CrcRegisterConcat(c, a, b[..|b| - 1]);
    }
  }

  /** Continuing a CRC over b from the CRC of a gives the CRC of a followed by b. */
  lemma Crc32UpdateConcat(crc: bv32, a: seq<u8>, b: seq<u8>)
    ensures Crc32Update(Crc32Update(crc, a), b) == Crc32Update(crc, a + b)
  {
    MaskMask(CrcRegister(Mask(crc), a));
    CrcRegisterConcat(Mask(crc), a, b);
  }

  /** The table entries the check value below passes through. */
  lemma CheckValueEntries()
    ensures CrcByte(0xce) == 0x7cdc_efb7 && CrcByte(0x7a) == 0xb0d0_9822 && CrcByte(0x01) == 0x7707_3096
    ensures CrcByte(0x19) == 0x646b_a8c0 && CrcByte(0x69) == 0x346e_d9fc && CrcByte(0xd5) == 0xf6b9_265b
    ensures CrcByte(0xa9) == 0xaf0a_1b4c && CrcByte(0x58) == 0x65b0_d9c6
  {
  }

  /** The register values the check value below passes through, one byte at a time. */
  lemma CheckValueSteps()
    ensures TableStep(0xffff_ffff, 0x31) == 0x7c23_1048 && TableStep(0x7c23_1048, 0x32) == 0xb0ac_bb32 && TableStep(0xb0ac_bb32, 0x33) == 0x77b7_9c2d
    ensures TableStep(0x77b7_9c2d, 0x34) == 0x641c_1f5c && TableStep(0x641c_1f5c, 0x35) == 0x340a_c5e3 && TableStep(0x340a_c5e3, 0x36) == 0xf68d_2c9e
    ensures TableStep(0xf68d_2c9e, 0x37) == 0xaffc_9660 && TableStep(0xaffc_9660, 0x38) == 0x651f_2550 && TableStep(0x651f_2550, 0x39) == 0x340b_c6d9
  {
    CheckValueEntries();
  }

  lemma CheckValueRegister3(d: seq<u8>)
    requires d == [0x31, 0x32, 0x33, 0x34, 0x35, 0x36, 0x37, 0x38, 0x39]
    ensures CrcRegister(0xffff_ffff, d[..3]) == 0x77b7_9c2d
  {
    CheckValueSteps();
    assert d[..1][..0] == d[..0];
    assert CrcRegister(0xffff_ffff, d[..1]) == 0x7c23_1048;
    assert d[..2][..1] == d[..1];
    assert CrcRegister(0xffff_ffff, d[..2]) == 0xb0ac_bb32;
    assert d[..3][..2] == d[..2];
  }

  lemma CheckValueRegister6(d: seq<u8>)
    requires d == [0x31, 0x32, 0x33, 0x34, 0x35, 0x36, 0x37, 0x38, 0x39]
    ensures CrcRegister(0xffff_ffff, d[..6]) == 0xf68d_2c9e
  {
    CheckValueSteps();
    CheckValueRegister3(d);
    assert d[..4][..3] == d[..3];
    assert CrcRegister(0xffff_ffff, d[..4]) == 0x641c_1f5c;
    assert d[..5][..4] == d[..4];
    assert CrcRegister(0xffff_ffff, d[..5]) == 0x340a_c5e3;
    assert d[..6][..5] == d[..5];
  }

  lemma CheckValueRegister9(d: seq<u8>)
    requires d == [0x31, 0x32, 0x33, 0x34, 0x35, 0x36, 0x37, 0x38, 0x39]
    ensures CrcRegister(0xffff_ffff, d[..9]) == 0x340b_c6d9
  {
    CheckValueSteps();
    CheckValueRegister6(d);
    assert d[..7][..6] == d[..6];
    assert CrcRegister(0xffff_ffff, d[..7]) == 0xaffc_9660;
    assert d[..8][..7] == d[..7];
    assert CrcRegister(0xffff_ffff, d[..8]) == 0x651f_2550;
    assert d[..9][..8] == d[..8];
  }

  /**
   * The check value of the CRC-32 of ISO 3309 and ITU-T V.42: the CRC of
   * the nine ASCII digits "123456789" is 0xCBF43926.
   */
  lemma Crc32CheckValue(d: seq<u8>)
    requires d == [0x31, 0x32, 0x33, 0x34, 0x35, 0x36, 0x37, 0x38, 0x39]
    ensures Crc32Update(0, d) == 0xCBF4_3926
  {
    CheckValueRegister9(d);
    assert Mask(0) == 0xffff_ffff;
    assert d[..9] == d;
  }

  function Zeros(n: nat): (z: seq<u8>)
    ensures |z| == n && forall i :: 0 <= i < n ==> z[i] == 0
  {
    seq(n, _ => 0)
  }

  /** The bytes update_crc reads: len bytes of buf, len zeros when buf is NULL (None), none for len <= 0. */
  function CrcInput(buf: Option<seq<u8>>, len: int): seq<u8>
    requires buf.Some? ==> len <= |buf.value|
  {
    if len <= 0 then [] else if buf.None? then Zeros(len) else buf.value[..len]
  }

  /** Byte i of the input: the buffer's, or zero when there is no buffer. */
  lemma InputAt(buf: Option<seq<u8>>, len: int, i: nat)
    requires buf.Some? ==> len <= |buf.value|
    requires i < len
    ensures |CrcInput(buf, len)| == len
    ensures CrcInput(buf, len)[i] == if buf.None? then 0 else buf.value[i]
  {
  }

  /** Feeding one more byte of data is one more table step. */
  lemma RegisterStep(c: bv32, data: seq<u8>, i: nat)
    requires i < |data|
    ensures CrcRegister(c, data[..i + 1]) == TableStep(CrcRegister(c, data[..i]), data[i])
  {
    assert data[..i + 1][..i] == data[..i];
  }

  /** update_crc: continues crc over the bytes CrcInput names, through a table ComputeCrcTable filled. */
  method UpdateCrc(table: array<bv32>, crc: bv32, buf: Option<seq<u8>>, len: int) returns (r: bv32)
    requires IsCrcTable(table)
    requires buf.Some? ==> len <= |buf.value|
    ensures r == Crc32Update(crc, CrcInput(buf, len))
  {
    ghost var data := CrcInput(buf, len);
    var c := Mask(crc);
    var i := 0;
    while i < len
      invariant 0 <= i && (len <= 0 ==> i == 0) && (len > 0 ==> i <= len)
      invariant c == CrcRegister(Mask(crc), data[..i])
    {
      var b: u8;
      if buf.None? {
        b := 0;
      } else {
        b := buf.value[i];
      }
      InputAt(buf, len, i);
      RegisterStep(Mask(crc), data, i);
      c := TableLookup(table, c, b);
      i := i + 1;
    }
    assert data[..i] == data;
    r := Mask(c);
  }

  /**
   * The length the second update_crc call of the file check receives: the
   * reported size minus 4 in unsigned 32-bit arithmetic, then read as a
   * signed int, so a size of 1 to 3 (or one of 2^31 + 4 and above) gives a
   * negative length.
   */
  function SecondPassLength(filesize: u32): (len: int)
    ensures filesize >= 4 && filesize - 4 < 0x8000_0000 ==> len == filesize - 4
    ensures filesize < 4 || filesize - 4 >= 0x8000_0000 ==> len < 0
  {
    var diff := (filesize + 0x1_0000_0000 - 4) % 0x1_0000_0000;
    if diff < 0x8000_0000 then diff else diff - 0x1_0000_0000
  }

  /**
   * The file check: skipped (None) when the header reports size 0;
   * otherwise the CRC-32 of four zero bytes standing for the stored
   * checksum, continued over the file from byte 4 up to the reported size.
   */
  method FileCrc(table: array<bv32>, file: seq<u8>, filesize: u32) returns (crc: Option<bv32>)
    requires IsCrcTable(table)
    requires 4 <= |file| && SecondPassLength(filesize) <= |file| - 4
    ensures filesize == 0 <==> crc.None?
    ensures crc.Some? ==> crc.value == Crc32Update(0, Zeros(4) + CrcInput(Some(file[4..]), SecondPassLength(filesize)))
  {
    if filesize == 0 {
      return None;
    }
    var c := UpdateCrc(table, 0, None, 4);
    assert CrcInput(None, 4) == Zeros(4);
    c := UpdateCrc(table, c, Some(file[4..]), SecondPassLength(filesize));
    Crc32UpdateConcat(0, Zeros(4), CrcInput(Some(file[4..]), SecondPassLength(filesize)));
    return Some(c);
  }

  // ---------------------------------------------------------------
  // Run-length decoding of one waveform table
  // ---------------------------------------------------------------

  const RLE_TOGGLE := 0xFC
  const RLE_END := 0xFF
  const MAX_TABLE_LENGTH := 0x10_0000

  /** A decoded block: its bytes, and how many input bytes up to and including the end marker it used. */
  datatype Rle = Rle(out: seq<u8>, used: nat)

  function Run(b: u8, n: nat): (s: seq<u8>)
    ensures |s| == n && forall i :: 0 <= i < n ==> s[i] == b
  {
    seq(n, _ => b)
  }

  function Prepend(pre: seq<u8>, used: nat, r: Option<Rle>): Option<Rle>
  {
    if r.None? then None else Some(Rle(pre + r.value.out, used + r.value.used))
  }

  /**
   * Reference decoder: 0xFC toggles between run-length and raw mode, 0xFF
   * ends the block, a raw byte stands for itself, and in run-length mode a
   * byte b followed by a count n stands for n + 1 copies of b. None when the
   * input ends before the end marker.
   */
  function DecodeRle(data: seq<u8>, rle: bool): (r: Option<Rle>)
    ensures r.Some? ==> 0 < r.value.used <= |data|
  {
    if data == [] then None
    else if data[0] == RLE_TOGGLE then Prepend([], 1, DecodeRle(data[1..], !rle))
    else if data[0] == RLE_END then Some(Rle([], 1))
    else if !rle then Prepend([data[0]], 1, DecodeRle(data[1..], rle))
    else if |data| < 2 then None
    else Prepend(Run(data[0], data[1] as int + 1), 2, DecodeRle(data[2..], rle))
  }

  /** The mod-256 sum of a byte string. */
  function ByteSum(s: seq<u8>): nat
  {
    if s == [] then 0 else (ByteSum(s[..|s| - 1]) + s[|s| - 1]) % 256
  }

  datatype TableResult =
    | Decoded(size: nat, checksum: u8, checksumOk: bool)
    | Truncated
    | Overflow

  lemma PrependPrepend(a: seq<u8>, m: nat, b: seq<u8>, n: nat, r: Option<Rle>)
    ensures Prepend(a, m, Prepend(b, n, r)) == Prepend(a + b, m + n, r)
  {
    if r.Some? {
      assert a + (b + r.value.out) == (a + b) + r.value.out;
    }
  }

  /**
   * The table decode loop: walks the file from start, writing the decoded
   * bytes into buf and summing every byte it consumes, the count bytes of
   * runs included; the byte after the end marker is the stored checksum.
   * Input that ends early is reported as Truncated, and output that would
   * not fit in the buffer as Overflow.
   */
  method DecodeTable(file: seq<u8>, start: nat, buf: array<u8>) returns (res: TableResult)
    requires start <= |file| && buf.Length == MAX_TABLE_LENGTH
    modifies buf
    ensures res.Decoded? ==> (
      var d := DecodeRle(file[start..], true);
      d.Some? && res.size <= MAX_TABLE_LENGTH && d.value.out == buf[..res.size]
      && res.checksum == ByteSum(file[start..start + d.value.used])
      && start + d.value.used < |file|
      && (res.checksumOk <==> file[start + d.value.used] == res.checksum))
    ensures res.Truncated? ==> (
      var d := DecodeRle(file[start..], true);
      d.None? || start + d.value.used == |file|)
    ensures res.Overflow? ==> (
      var d := DecodeRle(file[start..], true);
      d.None? || |d.value.out| > MAX_TABLE_LENGTH)
  {
    ProgressStart(file, start);
    ghost var used;
    res, used := DecodeLoop(file, start, buf, DecodeRle(file[start..], true));
  }

  /** The loop of DecodeTable, against the decoding whole of the block it is walking. */
  method DecodeLoop(file: seq<u8>, start: nat, buf: array<u8>, ghost whole: Option<Rle>)
    returns (res: TableResult, ghost used: nat)
    requires buf.Length == MAX_TABLE_LENGTH && Progress(file, start, start, true, [], whole, 0)
    modifies buf
    ensures res.Decoded? ==>
      res.size <= MAX_TABLE_LENGTH && whole == Some(Rle(buf[..res.size], used))
      && res.checksum == ByteSum(file[start..start + used]) && start + used < |file|
      && (res.checksumOk <==> file[start + used] == res.checksum)
    ensures res.Truncated? ==> whole.None? || start + whole.value.used == |file|
    ensures res.Overflow? ==> whole.None? || |whole.value.out| > MAX_TABLE_LENGTH
  {
    var p := start;
    var idx := 0;
    var rle := true;
    var checksum: u8 := 0;
    ghost var out: seq<u8> := [];
    used := 0;
    while true
      invariant idx == |out| <= buf.Length && buf[..idx] == out
      invariant Progress(file, start, p, rle, out, whole, checksum)
      decreases |file| - p
    {
      if p >= |file| {
        ProgressAtEnd(file, start, p, rle, out, whole, checksum);
        return Truncated, used;
      }
      var step;
      step, p, rle, idx, checksum, out := DecodeToken(file, start, buf, p, rle, idx, checksum, out, whole);
      match step
      case Ended =>
        used := p - start;
        if p >= |file| {
          return Truncated, used;
        }
        return Decoded(idx, checksum, file[p] == checksum), used;
      case Short =>
        return Truncated, used;
      case Full =>
        return Overflow, used;
      case Continue =>
    }
  }

  /** How one token of the table's stream left the decoder. */
  datatype TokenStep = Continue | Ended | Short | Full

  /**
   * One token of the loop of the RLE block: a mode toggle, the end marker,
   * or a data token, each added to the checksum.
   */
  method DecodeToken(file: seq<u8>, start: nat, buf: array<u8>, p: nat, rle: bool, idx: nat, checksum: u8,
                     ghost out: seq<u8>, ghost whole: Option<Rle>)
    returns (step: TokenStep, p': nat, rle': bool, idx': nat, checksum': u8, ghost out': seq<u8>)
    requires buf.Length == MAX_TABLE_LENGTH && idx == |out| <= buf.Length && buf[..idx] == out
    requires Progress(file, start, p, rle, out, whole, checksum) && p < |file|
    modifies buf
    ensures idx' == |out'| <= buf.Length && buf[..idx'] == out'
    ensures step.Continue? ==> p < p' && Progress(file, start, p', rle', out', whole, checksum')
    ensures step.Ended? ==>
      start <= p' <= |file| && whole == Some(Rle(out', p' - start)) && checksum' == ByteSum(file[start..p'])
    ensures step.Short? ==> whole.None?
    ensures step.Full? ==> whole.None? || |whole.value.out| > MAX_TABLE_LENGTH
  {
    var chr := file[p];
    if chr == RLE_TOGGLE {
      StepToggle(file, start, p, rle, out, whole, checksum);
      step, p', rle', idx', checksum', out' := Continue, p + 1, !rle, idx, (checksum as int + chr) % 256, out;
    } else if chr == RLE_END {
      StepEnd(file, start, p, rle, out, whole, checksum);
      step, p', rle', idx', checksum', out' := Ended, p + 1, rle, idx, (checksum as int + chr) % 256, out;
    } else if !rle {
      step, p', idx', checksum', out' := DecodeRaw(file, start, buf, p, idx, checksum, out, whole);
      rle' := rle;
    } else {
      step, p', idx', checksum', out' := DecodeRun(file, start, buf, p, idx, checksum, out, whole);
      rle' := rle;
    }
  }

  /** A raw byte outside RLE mode, stored while it fits. */
  method DecodeRaw(file: seq<u8>, start: nat, buf: array<u8>, p: nat, idx: nat, checksum: u8,
                   ghost out: seq<u8>, ghost whole: Option<Rle>)
    returns (step: TokenStep, p': nat, idx': nat, checksum': u8, ghost out': seq<u8>)
    requires buf.Length == MAX_TABLE_LENGTH && idx == |out| <= buf.Length && buf[..idx] == out
    requires Progress(file, start, p, false, out, whole, checksum) && p < |file|
    requires file[p] != RLE_TOGGLE && file[p] != RLE_END
    modifies buf
    ensures idx' == |out'| <= buf.Length && buf[..idx'] == out'
    ensures step.Continue? || step.Full?
    ensures step.Continue? ==> p < p' && Progress(file, start, p', false, out', whole, checksum')
    ensures step.Full? ==> whole.None? || |whole.value.out| > MAX_TABLE_LENGTH
  {
    var chr := file[p];
    StepRaw(file, start, p, out, whole, checksum);
    step, p', idx', checksum', out' := Continue, p + 1, idx, (checksum as int + chr) % 256, out + [chr];
    if idx >= MAX_TABLE_LENGTH {
      ProgressGrows(file, start, p', false, out', whole, checksum');
      step := Full;
      out' := out;
      return;
    }
    WriteRun(buf, idx, chr, 1);
    assert Run(chr, 1) == [chr];
    idx' := idx + 1;
  }

  /** A byte and its repeat count in RLE mode, stored while the run fits. */
  method DecodeRun(file: seq<u8>, start: nat, buf: array<u8>, p: nat, idx: nat, checksum: u8,
                   ghost out: seq<u8>, ghost whole: Option<Rle>)
    returns (step: TokenStep, p': nat, idx': nat, checksum': u8, ghost out': seq<u8>)
    requires buf.Length == MAX_TABLE_LENGTH && idx == |out| <= buf.Length && buf[..idx] == out
    requires Progress(file, start, p, true, out, whole, checksum) && p < |file|
    requires file[p] != RLE_TOGGLE && file[p] != RLE_END
    modifies buf
    ensures idx' == |out'| <= buf.Length && buf[..idx'] == out'
    ensures !step.Ended?
    ensures step.Continue? ==> p < p' && Progress(file, start, p', true, out', whole, checksum')
    ensures step.Short? ==> whole.None?
    ensures step.Full? ==> whole.None? || |whole.value.out| > MAX_TABLE_LENGTH
  {
    var chr := file[p];
    if p + 1 >= |file| {
      StepShortRun(file, start, p, out, whole, checksum);
      return Short, p, idx, checksum, out;
    }
    var len := file[p + 1];
    StepRun(file, start, p, out, whole, checksum);
    step, p', idx', checksum', out' :=
      Continue, p + 2, idx, ((checksum as int + chr) % 256 + len) % 256, out + Run(chr, len as int + 1);
    if idx + len + 1 > MAX_TABLE_LENGTH {
      ProgressGrows(file, start, p', true, out', whole, checksum');
      step := Full;
      out' := out;
      return;
    }
    WriteRun(buf, idx, chr, len as int + 1);
    idx' := idx + len + 1;
  }

  ghost predicate Progress(file: seq<u8>, start: nat, p: nat, rle: bool, out: seq<u8>, whole: Option<Rle>, checksum: int)
  {
    start <= p <= |file|
    && Prepend(out, p - start, DecodeRle(file[p..], rle)) == whole
    && checksum == ByteSum(file[start..p])
  }

  lemma ProgressStart(file: seq<u8>, start: nat)
    requires start <= |file|
    ensures Progress(file, start, start, true, [], DecodeRle(file[start..], true), 0)
  {
    var r := DecodeRle(file[start..], true);
    if r.Some? {
      assert [] + r.value.out == r.value.out;
    }
    assert file[start..start] == [];
  }

  lemma ProgressAtEnd(file: seq<u8>, start: nat, p: nat, rle: bool, out: seq<u8>, whole: Option<Rle>, checksum: int)
    requires Progress(file, start, p, rle, out, whole, checksum) && p >= |file|
    ensures whole.None?
  {
    assert file[p..] == [];
  }

  lemma SumStep(file: seq<u8>, start: nat, p: nat)
    requires start <= p < |file|
    ensures ByteSum(file[start..p + 1]) == (ByteSum(file[start..p]) + file[p]) % 256
  {
    assert file[start..p + 1][..p - start] == file[start..p];
  }

  lemma StepToggle(file: seq<u8>, start: nat, p: nat, rle: bool, out: seq<u8>, whole: Option<Rle>, checksum: int)
    requires Progress(file, start, p, rle, out, whole, checksum) && p < |file| && file[p] == RLE_TOGGLE
    ensures Progress(file, start, p + 1, !rle, out, whole, (checksum + file[p]) % 256)
  {
    SumStep(file, start, p);
    assert file[p..][1..] == file[p + 1..];
    PrependPrepend(out, p - start, [], 1, DecodeRle(file[p + 1..], !rle));
    assert out + [] == out;
  }

  lemma StepEnd(file: seq<u8>, start: nat, p: nat, rle: bool, out: seq<u8>, whole: Option<Rle>, checksum: int)
    requires Progress(file, start, p, rle, out, whole, checksum) && p < |file| && file[p] == RLE_END
    ensures whole == Some(Rle(out, p + 1 - start))
    ensures (checksum + file[p]) % 256 == ByteSum(file[start..p + 1])
  {
    SumStep(file, start, p);
    assert out + [] == out;
  }

  lemma StepRaw(file: seq<u8>, start: nat, p: nat, out: seq<u8>, whole: Option<Rle>, checksum: int)
    requires Progress(file, start, p, false, out, whole, checksum) && p < |file|
    requires file[p] != RLE_TOGGLE && file[p] != RLE_END
    ensures Progress(file, start, p + 1, false, out + [file[p]], whole, (checksum + file[p]) % 256)
  {
    SumStep(file, start, p);
    assert file[p..][1..] == file[p + 1..];
    PrependPrepend(out, p - start, [file[p]], 1, DecodeRle(file[p + 1..], false));
  }

  lemma StepShortRun(file: seq<u8>, start: nat, p: nat, out: seq<u8>, whole: Option<Rle>, checksum: int)
    requires Progress(file, start, p, true, out, whole, checksum) && p + 1 == |file|
    requires file[p] != RLE_TOGGLE && file[p] != RLE_END
    ensures whole.None?
  {
  }

  lemma StepRun(file: seq<u8>, start: nat, p: nat, out: seq<u8>, whole: Option<Rle>, checksum: int)
    requires Progress(file, start, p, true, out, whole, checksum) && p + 1 < |file|
    requires file[p] != RLE_TOGGLE && file[p] != RLE_END
    ensures Progress(file, start, p + 2, true, out + Run(file[p], file[p + 1] as int + 1), whole,
      ((checksum + file[p]) % 256 + file[p + 1]) % 256)
  {
    SumStep(file, start, p);
    SumStep(file, start, p + 1);
    assert file[p..][2..] == file[p + 2..];
    PrependPrepend(out, p - start, Run(file[p], file[p + 1] as int + 1), 2, DecodeRle(file[p + 2..], true));
  }

  /** Whatever follows, the decoded output starts with what was already produced. */
  lemma ProgressGrows(file: seq<u8>, start: nat, p: nat, rle: bool, out: seq<u8>, whole: Option<Rle>, checksum: int)
    requires Progress(file, start, p, rle, out, whole, checksum)
    ensures whole.None? || |whole.value.out| >= |out|
  {
  }

  /** The inner loop of a run: n copies of b stored from buf[at] on, nothing before at touched. */
  method WriteRun(buf: array<u8>, at: nat, b: u8, n: nat)
    requires at + n <= buf.Length
    modifies buf
    ensures buf[..at + n] == old(buf[..at]) + Run(b, n)
  {
    var j := 0;
    while j < n
      invariant 0 <= j <= n
      invariant buf[..at + j] == old(buf[..at]) + Run(b, j)
    {
      buf[at + j] := b;
      assert buf[..at + j + 1] == buf[..at + j] + [b];
      j := j + 1;
    }
  }

  /** A run as the encoder writes it: the byte, then its repeat count less one. */
  datatype RunSpec = RunSpec(b: u8, count: nat)

  predicate Encodable(runs: seq<RunSpec>)
  {
    forall i :: 0 <= i < |runs| ==>
      runs[i].b != RLE_TOGGLE && runs[i].b != RLE_END && 1 <= runs[i].count <= 256
  }

  function EncodeRuns(runs: seq<RunSpec>): (s: seq<u8>)
    requires Encodable(runs)
    ensures |s| == 2 * |runs|
  {
    if runs == [] then [] else [runs[0].b, runs[0].count - 1] + EncodeRuns(runs[1..])
  }

  function Expand(runs: seq<RunSpec>): seq<u8>
  {
    if runs == [] then [] else Run(runs[0].b, runs[0].count) + Expand(runs[1..])
  }

  /** Decoding run-length pairs followed by the end marker gives back every run at its full length. */
  lemma {:induction false} DecodeEncodedRuns(runs: seq<RunSpec>, rest: seq<u8>)
    requires Encodable(runs)
    ensures DecodeRle(EncodeRuns(runs) + [RLE_END as u8] + rest, true)
      == Some(Rle(Expand(runs), 2 * |runs| + 1))
  {
    var d := EncodeRuns(runs) + [RLE_END as u8] + rest;
    if runs != [] {
      assert d[0] == runs[0].b && d[1] == runs[0].count - 1;
      assert d[2..] == EncodeRuns(runs[1..]) + [RLE_END as u8] + rest;
      DecodeEncodedRuns(runs[1..], rest);
    }
  }

  predicate RawSafe(raw: seq<u8>)
  {
    forall i :: 0 <= i < |raw| ==> raw[i] != RLE_TOGGLE && raw[i] != RLE_END
  }

  lemma {:induction false} DecodeRawTail(raw: seq<u8>, rest: seq<u8>)
    requires RawSafe(raw)
    ensures DecodeRle(raw + [RLE_END as u8] + rest, false) == Some(Rle(raw, |raw| + 1))
  {
    var d := raw + [RLE_END as u8] + rest;
    if raw != [] {
      assert d[1..] == raw[1..] + [RLE_END as u8] + rest;
      DecodeRawTail(raw[1..], rest);
      assert [raw[0]] + raw[1..] == raw;
    }
  }

  /** A toggle into raw mode makes every following byte stand for itself. */
  lemma DecodeRawBlock(raw: seq<u8>, rest: seq<u8>)
    requires RawSafe(raw)
    ensures DecodeRle([RLE_TOGGLE as u8] + raw + [RLE_END as u8] + rest, true)
      == Some(Rle(raw, |raw| + 2))
  {
    var d := [RLE_TOGGLE as u8] + raw + [RLE_END as u8] + rest;
    assert d[0] == RLE_TOGGLE && d[1..] == raw + [RLE_END as u8] + rest;
    DecodeRawTail(raw, rest);
    assert [] + raw == raw;
  }

  /** Every run of an all-256 run list expands to 256 bytes. */
  lemma {:induction false} ExpandFullRuns(runs: seq<RunSpec>)
    requires forall i :: 0 <= i < |runs| ==> runs[i].count == 256
    ensures |Expand(runs)| == 256 * |runs|
  {
    if runs != [] {
      ExpandFullRuns(runs[1..]);
    }
  }

  /**
   * The decode loop of the tool stores every decoded byte at derle_buffer[idx++]
   * without comparing idx with MAX_TABLE_LENGTH: 4097 pairs (0x00, 0xFF) and
   * the end marker, 8195 input bytes, decode to 1048832 bytes, so the last
   * writes land past the 1 MiB buffer.
   */
  lemma RleOverrunsBufferAsWritten(runs: seq<RunSpec>, rest: seq<u8>)
    requires runs == seq(4097, _ => RunSpec(0, 256))
    ensures Encodable(runs)
    ensures var d := DecodeRle(EncodeRuns(runs) + [RLE_END as u8] + rest, true);
      d.Some? && |d.value.out| - 1 >= MAX_TABLE_LENGTH
  {
    DecodeEncodedRuns(runs, rest);
    ExpandFullRuns(runs);
  }

  // ---------------------------------------------------------------
  // Table ids
  // ---------------------------------------------------------------

  /** The distinct addresses of s, each at the place it first occurs. */
  function FirstSeen(s: seq<nat>): seq<nat>
  {
    if s == [] then []
    else
      var d := FirstSeen(s[..|s| - 1]);
      if s[|s| - 1] in d then d else d + [s[|s| - 1]]
  }

  /** No address is given two table ids, and every address gets one. */
  lemma {:induction false} FirstSeenDistinct(s: seq<nat>)
    ensures forall i, j :: 0 <= i < j < |FirstSeen(s)| ==> FirstSeen(s)[i] != FirstSeen(s)[j]
    ensures forall a :: a in FirstSeen(s) <==> a in s
  {
    if s != [] {
      FirstSeenDistinct(s[..|s| - 1]);
      assert s == s[..|s| - 1] + [s[|s| - 1]];
    }
  }

  /** The linear search for addr among the first tables known offsets: its index, or -1. */
  method FindTable(offsets: array<nat>, tables: nat, addr: nat) returns (id: int)
    requires tables <= offsets.Length
    ensures -1 <= id < tables
    ensures id == -1 <==> addr !in offsets[..tables]
    ensures id >= 0 ==> offsets[id] == addr && addr !in offsets[..id]
  {
    id := -1;
    var k := 0;
    while k < tables
      invariant 0 <= k <= tables
      invariant addr !in offsets[..k]
    {
      if offsets[k] == addr {
        id := k;
        return;
      }
      assert offsets[..k + 1] == offsets[..k] + [offsets[k]];
      k := k + 1;
    }
  }

  /**
   * The table-id assignment over the mode-by-temperature pointers, in
   * reading order: an address met before gets the id it got then, a new
   * one gets the next id and is appended to table_offsets.
   */
  method AssignTableIds(addrs: seq<nat>, offsets: array<nat>, ids: array<nat>) returns (tables: nat)
    requires offsets.Length >= |addrs| && ids.Length == |addrs| && offsets != ids
    modifies offsets, ids
    ensures tables <= offsets.Length && offsets[..tables] == FirstSeen(addrs)
    ensures forall k :: 0 <= k < |addrs| ==> ids[k] < tables && offsets[ids[k]] == addrs[k]
  {
    tables := 0;
    var n := 0;
    while n < |addrs|
      invariant 0 <= n <= |addrs| && tables <= n
      invariant offsets[..tables] == FirstSeen(addrs[..n])
      invariant forall k :: 0 <= k < n ==> ids[k] < tables && offsets[ids[k]] == addrs[k]
    {
      tables := AssignTableId(addrs, n, offsets, ids, tables);
      n := n + 1;
    }
    assert addrs[..n] == addrs;
  }

  /** One pointer of AssignTableIds: look addrs[n] up, append it when new, record its id. */
  method AssignTableId(addrs: seq<nat>, n: nat, offsets: array<nat>, ids: array<nat>, tables: nat)
    returns (tables': nat)
    requires n < |addrs| && tables <= n && offsets.Length >= |addrs| && ids.Length == |addrs| && offsets != ids
    requires offsets[..tables] == FirstSeen(addrs[..n])
    requires forall k :: 0 <= k < n ==> ids[k] < tables && offsets[ids[k]] == addrs[k]
    modifies offsets, ids
    ensures tables <= tables' <= n + 1 && offsets[..tables'] == FirstSeen(addrs[..n + 1])
    ensures forall k :: 0 <= k <= n ==> ids[k] < tables' && offsets[ids[k]] == addrs[k]
  {
    FirstSeenSnoc(addrs, n);
    var id := FindTable(offsets, tables, addrs[n]);
    tables' := tables;
    if id == -1 {
      id := tables;
      offsets[id] := addrs[n];
      tables' := tables + 1;
      assert offsets[..tables'] == offsets[..tables] + [addrs[n]];
    }
    ids[n] := id;
    forall k | 0 <= k <= n
      ensures ids[k] < tables' && offsets[ids[k]] == addrs[k]
    {
      if k < n {
        assert ids[k] == old(ids[k]) && old(ids[k]) < tables;
      }
    }
  }

  lemma FirstSeenSnoc(s: seq<nat>, n: nat)
    requires n < |s|
    ensures FirstSeen(s[..n + 1]) ==
      if s[n] in FirstSeen(s[..n]) then FirstSeen(s[..n]) else FirstSeen(s[..n]) + [s[n]]
  {
    assert s[..n + 1][..n] == s[..n];
  }

  /**
   * Ids are handed out in first-seen order: the tables known after any
   * prefix of the pointers are the first tables of the final list.
   */
  lemma {:induction false} FirstSeenPrefix(s: seq<nat>, k: nat)
    requires k <= |s|
    ensures FirstSeen(s[..k]) <= FirstSeen(s)
    decreases |s| - k
  {
    if k < |s| {
      FirstSeenSnoc(s, k);
      FirstSeenPrefix(s, k + 1);
    } else {
      assert s[..k] == s;
    }
  }

  /** Equal addresses share their id: the ids AssignTableIds hands out name tables one to one. */
  lemma SameAddressSameId(addrs: seq<nat>, offsets: seq<nat>, ids: seq<nat>, a: nat, b: nat)
    requires offsets == FirstSeen(addrs) && |ids| == |addrs|
    requires forall k :: 0 <= k < |addrs| ==> ids[k] < |offsets| && offsets[ids[k]] == addrs[k]
    requires a < |addrs| && b < |addrs|
    ensures ids[a] == ids[b] <==> addrs[a] == addrs[b]
  {
    FirstSeenDistinct(addrs);
  }

  // ---------------------------------------------------------------
  // Frame geometry and phase unpacking
  // ---------------------------------------------------------------

  /** Whether the header's luts byte marks a colour (ACeP) waveform. */
  predicate IsAcep(luts: u8)
  {
    luts == 0x15
  }

  /** Bits per pixel: 5 when bits 3..2 of the luts byte are 01, and always for ACeP; 4 otherwise. */
  function Bpp(luts: u8): (bpp: nat)
    ensures bpp == 4 || bpp == 5
    ensures IsAcep(luts) ==> bpp == 5
  {
    if IsAcep(luts) then 5 else if luts / 4 % 4 == 1 then 5 else 4
  }

  /** Phases stored per table byte: 2-bit fields, or 4-bit fields for ACeP. */
  function PhasesPerByte(acep: bool): (ppb: nat)
    ensures ppb == 2 || ppb == 4
  {
    if acep then 2 else 4
  }

  /** Grey levels per pixel: 16 for 4 bpp, 32 for 5 bpp. */
  function States(bpp: nat): nat
  {
    if bpp == 4 then 16 else 32
  }

  /** Table bytes for the source states of one destination state in one phase. */
  function RowBytes(bpp: nat, ppb: nat): nat
    requires ppb == 2 || ppb == 4
  {
    States(bpp) / ppb
  }

  /** Table bytes per phase: one field for every (source, destination) pair. */
  function PhaseBytes(bpp: nat, ppb: nat): nat
    requires ppb == 2 || ppb == 4
  {
    States(bpp) * RowBytes(bpp, ppb)
  }

  /** The number of phases of a decoded table of idx bytes. */
  function FrameCount(idx: nat, bpp: nat, ppb: nat): nat
    requires ppb == 2 || ppb == 4
  {
    idx * ppb / (States(bpp) * States(bpp))
  }

  /** The phases counted for a decoded table use no byte past its end, and leave less than a phase over. */
  lemma FramesFit(idx: nat, bpp: nat, ppb: nat)
    requires ppb == 2 || ppb == 4
    ensures FrameCount(idx, bpp, ppb) * PhaseBytes(bpp, ppb) <= idx
    ensures idx < (FrameCount(idx, bpp, ppb) + 1) * PhaseBytes(bpp, ppb)
  {
    var p, c := PhaseBytes(bpp, ppb), ppb;
    var q := idx / p;
    var s, w := States(bpp), RowBytes(bpp, ppb);
    assert w * c == s;
    MulAssoc(s, w, c);
    ScaledQuotient(idx, p, c);
    assert (q + 1) * p == q * p + p;
  }

  lemma MulAssoc(a: nat, b: nat, c: nat)
    ensures a * b * c == a * (b * c)
  {
  }

  /** Scaling dividend and divisor alike leaves the quotient. */
  lemma ScaledQuotient(n: nat, p: nat, c: nat)
    requires p > 0 && c > 0
    ensures n * c / (p * c) == n / p
  {
    var q, r := n / p, n % p;
    assert n * c == q * (p * c) + r * c by {
      assert n == q * p + r;
      MulAssoc(q, p, c);
    }
    assert r * c < p * c by {
      MulMono(r + 1, p, c);
    }
    DivModSum(q, r * c, p * c);
  }

  /** Values a field of a table byte can take. */
  function FieldBase(ppb: nat): nat
    requires ppb == 2 || ppb == 4
  {
    if ppb == 4 then 4 else 16
  }

  /**
   * The fields of a table byte, lowest bits first: the values dump_phases
   * stores for y, y+1, .. of one source state, (val >> 2q) & 3 for four
   * phases per byte and (val >> 4q) & 0xf for two.
   */
  function Unpack(b: u8, ppb: nat): (f: seq<nat>)
    requires ppb == 2 || ppb == 4
    ensures |f| == ppb && forall q :: 0 <= q < ppb ==> f[q] < FieldBase(ppb)
  {
    if ppb == 4 then [b % 4, b / 4 % 4, b / 16 % 4, b / 64 % 4] else [b % 16, b / 16 % 16]
  }

  /** The byte whose fields, lowest bits first, are f. */
  function Repack(f: seq<nat>, ppb: nat): nat
    requires ppb == 2 || ppb == 4
    requires |f| == ppb
  {
    if ppb == 4 then f[0] + 4 * f[1] + 16 * f[2] + 64 * f[3] else f[0] + 16 * f[1]
  }

  /** Unpacking loses nothing: the fields reassemble the byte. */
  lemma UnpackRepack(b: u8, ppb: nat)
    requires ppb == 2 || ppb == 4
    ensures Repack(Unpack(b, ppb), ppb) == b
  {
    if ppb == 4 {
      DivModSum(b / 4, b % 4, 4);
      DivModSum(b / 16, b / 4 % 4, 4);
      DivModSum(b / 64, b / 16 % 4, 4);
      DivDiv(b, 4, 4);
      DivDiv(b, 16, 4);
    }
  }

  /** Any ppb fields below their base are the unpacking of exactly one byte. */
  lemma RepackUnpack(f: seq<nat>, ppb: nat)
    requires ppb == 2 || ppb == 4
    requires |f| == ppb && forall q :: 0 <= q < ppb ==> f[q] < FieldBase(ppb)
    ensures Repack(f, ppb) < 256 && Unpack(Repack(f, ppb), ppb) == f
  {
    if ppb == 4 {
      FourFields(f[0], f[1], f[2], f[3]);
    } else {
      DivModSum(f[1], f[0], 16);
    }
  }

  /** Four 2-bit fields, lowest first, come back out of the byte they make. */
  lemma FourFields(a: nat, b: nat, c: nat, d: nat)
    requires a < 4 && b < 4 && c < 4 && d < 4
    ensures var v := a + 4 * b + 16 * c + 64 * d;
      v < 256 && v % 4 == a && v / 4 % 4 == b && v / 16 % 4 == c && v / 64 % 4 == d
  {
    var v := a + 4 * b + 16 * c + 64 * d;
    DivModSum(b + 4 * c + 16 * d, a, 4);
    DivModSum(c + 4 * d, a + 4 * b, 16);
    DivModSum(d, a + 4 * b + 16 * c, 64);
    DivModSum(c + 4 * d, b, 4);
    DivModSum(d, c, 4);
  }

  /** The table byte holding the field of source state x and destination state y in phase i. */
  function LutByte(i: nat, x: nat, y: nat, bpp: nat, ppb: nat): nat
    requires ppb == 2 || ppb == 4
  {
    (i * States(bpp) + x) * RowBytes(bpp, ppb) + y / ppb
  }

  /**
   * What dump_phases stores at luts[i][y][x]: field y % ppb of table byte
   * LutByte(i, x, y); every such byte of the phases read lies inside the
   * table (LutByteBound).
   */
  function Cell(buffer: seq<u8>, bpp: nat, ppb: nat, i: nat, y: nat, x: nat): nat
    requires ppb == 2 || ppb == 4
  {
    var k := LutByte(i, x, y, bpp, ppb);
    if k < |buffer| then Unpack(buffer[k], ppb)[y % ppb] else 0
  }

  /**
   * dump_phases: the decoded table holds, phase after phase and source
   * state after source state, the destination states' fields packed ppb to
   * a byte, lowest bits first; they are spread into luts[phase][dst][src].
   */
  method DumpPhases(buffer: seq<u8>, bpp: nat, phases: nat, ppb: nat) returns (luts: array3<u8>)
    requires ppb == 2 || ppb == 4
    requires phases * PhaseBytes(bpp, ppb) <= |buffer|
    ensures fresh(luts)
    ensures luts.Length0 == phases && luts.Length1 == States(bpp) && luts.Length2 == States(bpp)
    ensures PhasesUnpacked(luts, buffer, bpp, ppb, phases)
  {
    var states := States(bpp);
    luts := new u8[phases, states, states];
    var ptr := 0;
    var i := 0;
    while i < phases
      invariant 0 <= i <= phases && ptr == LutByte(i, 0, 0, bpp, ppb)
      invariant PhasesUnpacked(luts, buffer, bpp, ppb, i)
    {
      ptr := UnpackPhase(luts, buffer, bpp, ppb, i, ptr);
      i := i + 1;
    }
  }

  /** The first n phases of luts hold the cells the table gives them. */
  predicate PhasesUnpacked(luts: array3<u8>, buffer: seq<u8>, bpp: nat, ppb: nat, n: nat)
    requires ppb == 2 || ppb == 4
    reads luts
  {
    n <= luts.Length0 && luts.Length1 == States(bpp) && luts.Length2 == States(bpp) &&
    forall i, y, x :: 0 <= i < n && 0 <= y < luts.Length1 && 0 <= x < luts.Length2 ==>
      luts[i, y, x] == Cell(buffer, bpp, ppb, i, y, x)
  }

  /** The source states of phase i, from byte ptr on; no other phase changes. */
  method UnpackPhase(luts: array3<u8>, buffer: seq<u8>, bpp: nat, ppb: nat, i: nat, ptr: nat) returns (ptr': nat)
    requires ppb == 2 || ppb == 4
    requires i < luts.Length0 && luts.Length1 == States(bpp) && luts.Length2 == States(bpp)
    requires luts.Length0 * PhaseBytes(bpp, ppb) <= |buffer| && ptr == LutByte(i, 0, 0, bpp, ppb)
    modifies luts
    ensures ptr' == LutByte(i + 1, 0, 0, bpp, ppb)
    ensures forall y, x :: 0 <= y < luts.Length1 && 0 <= x < luts.Length2 ==> luts[i, y, x] == Cell(buffer, bpp, ppb, i, y, x)
    ensures forall i', y, x :: 0 <= i' < luts.Length0 && i' != i && 0 <= y < luts.Length1 && 0 <= x < luts.Length2 ==>
      luts[i', y, x] == old(luts[i', y, x])
  {
    var states := States(bpp);
    ptr' := ptr;
    var x := 0;
    while x < states
      invariant 0 <= x <= states && ptr' == LutByte(i, x, 0, bpp, ppb)
      invariant forall y, x' :: 0 <= y < states && 0 <= x' < x ==> luts[i, y, x'] == Cell(buffer, bpp, ppb, i, y, x')
      invariant forall i', y, x' :: 0 <= i' < luts.Length0 && i' != i && 0 <= y < states && 0 <= x' < states ==>
        luts[i', y, x'] == old(luts[i', y, x'])
    {
      ptr' := UnpackColumn(luts, buffer, bpp, ppb, i, x, ptr');
      x := x + 1;
    }
  }

  /** The destination states of source state x in phase i, from byte ptr on; no other cell changes. */
  method UnpackColumn(luts: array3<u8>, buffer: seq<u8>, bpp: nat, ppb: nat, i: nat, x: nat, ptr: nat)
    returns (ptr': nat)
    requires ppb == 2 || ppb == 4
    requires i < luts.Length0 && luts.Length1 == States(bpp) && x < luts.Length2 == States(bpp)
    requires luts.Length0 * PhaseBytes(bpp, ppb) <= |buffer| && ptr == LutByte(i, x, 0, bpp, ppb)
    modifies luts
    ensures ptr' == LutByte(i, x + 1, 0, bpp, ppb)
    ensures forall y :: 0 <= y < luts.Length1 ==> luts[i, y, x] == Cell(buffer, bpp, ppb, i, y, x)
    ensures forall i', y, x' | 0 <= i' < luts.Length0 && 0 <= y < luts.Length1 && 0 <= x' < luts.Length2 ::
              (i' != i || x' != x) ==> luts[i', y, x'] == old(luts[i', y, x'])
  {
    var states := States(bpp);
    ptr' := ptr;
    var y := 0;
    ghost var m := 0;
    while y < states
      invariant 0 <= m <= RowBytes(bpp, ppb) && y == m * ppb && ptr' == ptr + m
      invariant forall y' :: 0 <= y' < y ==> luts[i, y', x] == Cell(buffer, bpp, ppb, i, y', x)
      invariant forall i', y', x' | 0 <= i' < luts.Length0 && 0 <= y' < states && 0 <= x' < states ::
                  (i' != i || x' != x) ==> luts[i', y', x'] == old(luts[i', y', x'])
    {
      LutByteBound(i, x, m, luts.Length0, bpp, ppb);
      var val := buffer[ptr'];
      ptr' := ptr' + 1;
      UnpackByte(luts, i, y, x, val, ppb);
      forall y' | y <= y' < y + ppb
        ensures luts[i, y', x] == Cell(buffer, bpp, ppb, i, y', x)
      {
        DivModSum(m, y' - y, ppb);
        assert LutByte(i, x, y', bpp, ppb) == ptr' - 1;
      }
      y := y + ppb;
      m := m + 1;
    }
  }

  /** The byte a cell of the loop reads lies inside the phases' part of the table. */
  lemma LutByteBound(i: nat, x: nat, m: nat, phases: nat, bpp: nat, ppb: nat)
    requires ppb == 2 || ppb == 4
    requires i < phases && x < States(bpp) && m < RowBytes(bpp, ppb)
    ensures LutByte(i, x, 0, bpp, ppb) + m < phases * PhaseBytes(bpp, ppb)
    ensures m * ppb + ppb <= States(bpp)
  {
    var s, w := States(bpp), RowBytes(bpp, ppb);
    MulMono(i * s + x + 1, phases * s, w);
    MulMono(m + 1, w, ppb);
  }

  /** One byte of dump_phases: its ppb fields go to luts[i][y..y+ppb-1][x], nothing else changes. */
  method UnpackByte(luts: array3<u8>, i: nat, y: nat, x: nat, val: u8, ppb: nat)
    requires ppb == 2 || ppb == 4
    requires i < luts.Length0 && y + ppb <= luts.Length1 && x < luts.Length2
    modifies luts
    ensures forall q :: 0 <= q < ppb ==> luts[i, y + q, x] == Unpack(val, ppb)[q]
    ensures forall i', y', x' | 0 <= i' < luts.Length0 && 0 <= y' < luts.Length1 && 0 <= x' < luts.Length2 ::
              !(i' == i && x' == x && y <= y' < y + ppb) ==> luts[i', y', x'] == old(luts[i', y', x'])
  {
    if ppb == 4 {
      luts[i, y + 0, x] := val % 4;
      luts[i, y + 1, x] := val / 4 % 4;
      luts[i, y + 2, x] := val / 16 % 4;
      luts[i, y + 3, x] := val / 64 % 4;
    } else {
      luts[i, y + 0, x] := val % 16;
      luts[i, y + 1, x] := val / 16 % 16;
    }
  }
}
