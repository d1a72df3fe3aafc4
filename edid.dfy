// edid.c (both firmwares): the monitor's EDID base block, 128 bytes laid
// out as in the VESA E-EDID standard, version 1.3. fw/User fills in the
// panel's run-time configuration and serial number and fixes the checksum
// byte 127; fw keeps a register byte in front of the block, derives the
// serial from the RP2040's 64-bit board id and serves the block over I2C.

module Edid {

  import opened Words

  const BLOCK_SIZE: nat := 128

  /** The byte sum of s. */
  function Sum(s: seq<u8>): nat
  {
    if s == [] then 0 else Sum(s[..|s| - 1]) + s[|s| - 1]
  }

  lemma SumSnoc(p: seq<u8>, x: u8)
    ensures Sum(p + [x]) == Sum(p) + x
  {
    assert (p + [x])[..|p|] == p;
  }

  /** Adding to a value already cut to eight bits gives the same eight bits. */
  lemma ModAdd(a: nat, x: nat)
    ensures (a % 256 + x) % 256 == (a + x) % 256
  {
  }

  /** (uint8_t)(~c + 1): c promoted to int, complemented, incremented and cut back to eight bits. */
  function Negate8(c: u8): (r: u8)
    ensures (c + r) % 256 == 0
  {
    (256 - c) % 256
  }

  /** The checksum loop of edid_init: bytes lo .. hi - 1 summed into a uint8_t, the negation stored at hi. */
  method FixChecksum(edid: array<u8>, lo: nat, hi: nat)
    requires lo <= hi < edid.Length
    modifies edid
    ensures edid[..hi] == old(edid[..hi]) && edid[hi + 1..] == old(edid[hi + 1..])
    ensures (Sum(edid[lo..hi]) + edid[hi]) % 256 == 0
  {
    var checksum: u8 := 0;
    var i := lo;
    while i < hi
      invariant lo <= i <= hi
      invariant checksum == Sum(edid[lo..i]) % 256
      invariant edid[..] == old(edid[..])
    {
      assert edid[lo..i + 1] == edid[lo..i] + [edid[i]];
      SumSnoc(edid[lo..i], edid[i]);
      ModAdd(Sum(edid[lo..i]), edid[i]);
      checksum := (checksum + edid[i]) % 256;
      i := i + 1;
    }
    edid[hi] := Negate8(checksum);
  }

  // ---------------------------------------------------------------
  // The detailed timing descriptor, bytes 54 .. 71
  // ---------------------------------------------------------------

  /** The panel timing as the EDID's first detailed timing descriptor carries it. */
  datatype Timing = Timing(
    clock: nat, hact: nat, hblk: nat, vact: nat, vblk: nat,
    hfp: nat, hsync: nat, vfp: nat, vsync: nat, hsizeMm: nat, vsizeMm: nat)

  /** The run-time part of config_t that edid_init reads. */
  datatype Config = Config(
    pclkHz: u32, hfp: u8, vfp: u8, hsync: u8, vsync: u8,
    hact: u16, hblk: u16, vact: u16, vblk: u16,
    sizeXMm: u16, sizeYMm: u16, mfgWeek: u8, mfgYear: u8)

  /** The timing a configuration describes; the pixel clock in units of 10 kHz. */
  function TimingOf(c: Config): Timing
  {
    Timing(c.pclkHz / 10000, c.hact, c.hblk, c.vact, c.vblk, c.hfp, c.hsync, c.vfp, c.vsync, c.sizeXMm, c.sizeYMm)
  }

  /** Two 12-bit fields' high nibbles in one byte, as ((hi >> 8) << 4) | (lo >> 8) stored in a uint8_t. */
  function HighNibbles(hi: u16, lo: u16): u8
  {
    BitOr((hi / 256) * 16, lo / 256) % 256
  }

  /** Byte 64: the low nibbles of the vertical front porch and sync width. */
  function LowNibbles(vfp: u8, vsync: u8): u8
  {
    BitOr((vfp % 16) * 16, vsync % 16) % 256
  }

  /** Byte 65: bits 8-9 of the horizontal porch and sync, bits 4-5 of the vertical ones. */
  function TopBits(c: Config): u8
  {
    BitOr(BitOr(BitOr((c.hfp / 256) * 64, (c.hsync / 256) * 16), (c.vfp / 16) * 4), c.vsync / 16) % 256
  }

  /** Bytes 54 .. 68 as edid_init writes them. */
  function TimingBytes(c: Config): (b: seq<u8>)
    ensures |b| == 15
  {
    var clock := c.pclkHz / 10000;
    [ clock % 256, (clock / 256) % 256,
      c.hact % 256, c.hblk % 256, HighNibbles(c.hact, c.hblk),
      c.vact % 256, c.vblk % 256, HighNibbles(c.vact, c.vblk),
      c.hfp % 256, c.hsync % 256,
      LowNibbles(c.vfp, c.vsync), TopBits(c),
      c.sizeXMm % 256, c.sizeYMm % 256, HighNibbles(c.sizeXMm, c.sizeYMm) ]
  }

  /** A sink's reading of bytes 54 .. 68 of the descriptor. */
  function DecodeTiming(b: seq<u8>): Timing
    requires |b| >= 15
  {
    var w: seq<int> := b;
    Timing(
      w[0] + 256 * w[1],
      w[2] + 256 * (w[4] / 16), w[3] + 256 * (w[4] % 16),
      w[5] + 256 * (w[7] / 16), w[6] + 256 * (w[7] % 16),
      w[8] + 256 * (w[11] / 64), w[9] + 256 * ((w[11] / 16) % 4),
      w[10] / 16 + 16 * ((w[11] / 4) % 4), w[10] % 16 + 16 * (w[11] % 4),
      w[12] + 256 * (w[14] / 16), w[13] + 256 * (w[14] % 16))
  }

  /** Every field fits its width in the descriptor: 16-bit clock, 12-bit active, blanking and size, 6-bit vertical porch and sync. */
  predicate Fits(c: Config)
  {
    && c.pclkHz / 10000 < 0x1_0000
    && c.hact < 4096 && c.hblk < 4096 && c.vact < 4096 && c.vblk < 4096
    && c.vfp < 64 && c.vsync < 64
    && c.sizeXMm < 4096 && c.sizeYMm < 4096
  }

  /** Two nibbles side by side in one byte. */
  lemma NibblePair(h: nat, l: nat)
    requires h < 16 && l < 16
    ensures (h * 16 + l) % 256 == h * 16 + l && (h * 16 + l) / 16 == h && (h * 16 + l) % 16 == l
  {
  }

  lemma HighNibblesSplit(hi: u16, lo: u16)
    requires hi < 4096 && lo < 4096
    ensures HighNibbles(hi, lo) / 16 == hi / 256 && HighNibbles(hi, lo) % 16 == lo / 256
  {
    var h, l := hi / 256, lo / 256;
    assert Pow2(4) == 16;
    BitOrShifted(h, l, 4);
    NibblePair(h, l);
  }

  lemma LowNibblesSplit(f: u8, s: u8)
    ensures LowNibbles(f, s) == (f % 16) * 16 + s % 16
  {
    var h, l := f % 16, s % 16;
    assert Pow2(4) == 16;
    BitOrShifted(h, l, 4);
    NibblePair(h, l);
  }

  /** For eight-bit horizontal fields and six-bit vertical ones only the vertical bits 4-5 remain in byte 65. */
  lemma TopBitsSplit(c: Config)
    requires c.vfp < 64 && c.vsync < 64
    ensures TopBits(c) == (c.vfp / 16) * 4 + c.vsync / 16
  {
    assert c.hfp / 256 == 0 && c.hsync / 256 == 0;
    var h, l := c.vfp / 16, c.vsync / 16;
    assert Pow2(2) == 4;
    BitOrShifted(h, l, 2);
    assert h * 4 + l < 16;
  }

  /** One 12-bit field: its low byte and the high nibble joined back. */
  lemma JoinTwelve(x: u16, low: int, nibble: int)
    requires x < 4096 && low == x % 256 && nibble == x / 256
    ensures low + 256 * nibble == x
  {
  }

  /** A 16-bit value from its two bytes, low byte first. */
  lemma JoinSixteen(x: int, low: int, high: int)
    requires 0 <= x < 0x1_0000 && low == x % 256 && high == (x / 256) % 256
    ensures low + 256 * high == x
  {
  }

  /** The bytes of a descriptor field by field, as a sink sees them: low bytes, and the high bits in their nibbles. */
  predicate LaidOut(b: seq<u8>, c: Config)
  {
    |b| >= 15 && LowBytesLaidOut(b, c) && HighBitsLaidOut(b, c)
  }

  /** The bytes that hold a field's low eight bits. */
  predicate LowBytesLaidOut(b: seq<u8>, c: Config)
    requires |b| >= 15
  {
    && b[0] == (c.pclkHz / 10000) % 256 && b[1] == (c.pclkHz / 10000 / 256) % 256
    && b[2] == c.hact % 256 && b[3] == c.hblk % 256
    && b[5] == c.vact % 256 && b[6] == c.vblk % 256
    && b[8] == c.hfp && b[9] == c.hsync
    && b[12] == c.sizeXMm % 256 && b[13] == c.sizeYMm % 256
  }

  /** The bytes that pack the higher bits of two or four fields. */
  predicate HighBitsLaidOut(b: seq<u8>, c: Config)
    requires |b| >= 15
  {
    && b[4] / 16 == c.hact / 256 && b[4] % 16 == c.hblk / 256
    && b[7] / 16 == c.vact / 256 && b[7] % 16 == c.vblk / 256
    && b[10] == (c.vfp % 16) * 16 + c.vsync % 16 && b[11] == (c.vfp / 16) * 4 + c.vsync / 16
    && b[14] / 16 == c.sizeXMm / 256 && b[14] % 16 == c.sizeYMm / 256
  }

  /** edid_init's bytes are laid out so for every configuration whose fields fit. */
  lemma TimingBytesLaidOut(c: Config)
    requires Fits(c)
    ensures LaidOut(TimingBytes(c), c)
  {
    TimingLowBytes(c);
    TimingHighBits(c);
  }

  lemma TimingLowBytes(c: Config)
    ensures LowBytesLaidOut(TimingBytes(c), c)
  {
  }

  lemma TimingHighBits(c: Config)
    requires Fits(c)
    ensures HighBitsLaidOut(TimingBytes(c), c)
  {
    HighNibblesSplit(c.hact, c.hblk);
    HighNibblesSplit(c.vact, c.vblk);
    HighNibblesSplit(c.sizeXMm, c.sizeYMm);
    LowNibblesSplit(c.vfp, c.vsync);
    TopBitsSplit(c);
  }

  lemma ClockFromBytes(b: seq<u8>, c: Config)
    requires Fits(c) && LaidOut(b, c)
    ensures DecodeTiming(b).clock == TimingOf(c).clock
  {
    JoinSixteen(c.pclkHz / 10000, b[0], b[1]);
  }

  lemma HorizontalFromBytes(b: seq<u8>, c: Config)
    requires Fits(c) && LaidOut(b, c)
    ensures DecodeTiming(b).hact == c.hact && DecodeTiming(b).hblk == c.hblk
  {
    JoinTwelve(c.hact, b[2], b[4] / 16);
    JoinTwelve(c.hblk, b[3], b[4] % 16);
  }

  lemma VerticalFromBytes(b: seq<u8>, c: Config)
    requires Fits(c) && LaidOut(b, c)
    ensures DecodeTiming(b).vact == c.vact && DecodeTiming(b).vblk == c.vblk
  {
    JoinTwelve(c.vact, b[5], b[7] / 16);
    JoinTwelve(c.vblk, b[6], b[7] % 16);
  }

  lemma SizeFromBytes(b: seq<u8>, c: Config)
    requires Fits(c) && LaidOut(b, c)
    ensures DecodeTiming(b).hsizeMm == c.sizeXMm && DecodeTiming(b).vsizeMm == c.sizeYMm
  {
    JoinTwelve(c.sizeXMm, b[12], b[14] / 16);
    JoinTwelve(c.sizeYMm, b[13], b[14] % 16);
  }

  /** Bytes 64 and 65 give back six-bit vertical porch and sync and leave the horizontal top bits zero. */
  lemma SixBitJoin(f: nat, v: nat, lowByte: nat, topByte: nat)
    requires f < 64 && v < 64
    requires lowByte == (f % 16) * 16 + v % 16 && topByte == (f / 16) * 4 + v / 16
    ensures lowByte / 16 + 16 * ((topByte / 4) % 4) == f && lowByte % 16 + 16 * (topByte % 4) == v
    ensures topByte / 64 == 0 && (topByte / 16) % 4 == 0
  {
    NibblePair(f % 16, v % 16);
    assert topByte < 16;
    assert topByte / 4 == f / 16 && topByte % 4 == v / 16;
  }

  lemma PorchFromBytes(b: seq<u8>, c: Config)
    requires Fits(c) && LaidOut(b, c)
    ensures var t := DecodeTiming(b); t.hfp == c.hfp && t.hsync == c.hsync && t.vfp == c.vfp && t.vsync == c.vsync
  {
    SixBitJoin(c.vfp, c.vsync, b[10], b[11]);
  }

  /** Any bytes laid out for a configuration that fits decode to its timing. */
  lemma DecodeLaidOut(b: seq<u8>, c: Config)
    requires Fits(c) && LaidOut(b, c)
    ensures DecodeTiming(b) == TimingOf(c)
  {
    ClockFromBytes(b, c);
    HorizontalFromBytes(b, c);
    VerticalFromBytes(b, c);
    SizeFromBytes(b, c);
    PorchFromBytes(b, c);
  }

  /** A sink reads back the configured timing whenever every field fits its width. */
  lemma TimingRoundTrip(c: Config)
    requires Fits(c)
    ensures DecodeTiming(TimingBytes(c)) == TimingOf(c)
  {
    TimingBytesLaidOut(c);
    DecodeLaidOut(TimingBytes(c), c);
  }

  /** uid's bytes, most significant first. */
  function BigEndian(uid: u32): (b: seq<u8>)
    ensures |b| == 4
  {
    [(uid / 0x100_0000) % 256, (uid / 0x1_0000) % 256, (uid / 0x100) % 256, uid % 256]
  }

  lemma BigEndianRoundTrip(uid: u32)
    ensures var b: seq<int> := BigEndian(uid); ((b[0] * 256 + b[1]) * 256 + b[2]) * 256 + b[3] == uid
  {
    var q1 := uid / 256;
    var q2 := q1 / 256;
    var q3 := q2 / 256;
    assert uid == q1 * 256 + uid % 256;
    assert q1 == q2 * 256 + q1 % 256;
    assert q2 == q3 * 256 + q2 % 256;
    assert q3 < 256;
    assert uid / 0x1_0000 == q2 && uid / 0x100_0000 == q3;
  }

  /** The E-EDID 1.3 header bytes 0 .. 7. */
  const HEADER: seq<u8> := [0x00, 0xff, 0xff, 0xff, 0xff, 0xff, 0xff, 0x00]

  /** fw/User's static block before edid_init. */
  const USER_TEMPLATE: seq<u8> :=
    HEADER
    + [0x6a, 0x12, 0x01, 0x00, 0x42, 0x4b, 0x1d, 0x00, 0x01, 0x20, 0x01, 0x03, 0x85, 0x00, 0x00, 0x78, 0x06]
    + [0xee, 0x95, 0xa3, 0x54, 0x4c, 0x99, 0x26, 0x0f, 0x50, 0x54, 0x00, 0x00, 0x00, 0x01, 0x00]
    + [0x01, 0x00, 0x01, 0x00, 0x01, 0x00, 0x01, 0x00, 0x01, 0x00, 0x01, 0x00, 0x01, 0x00]
    + seq(17, _ => 0x00) + [0x1e]
    + [0x00, 0x00, 0x00, 0xfc, 0x00, 0x50, 0x61, 0x70, 0x65, 0x72, 0x20, 0x4d, 0x6f, 0x6e, 0x69, 0x74, 0x6f, 0x72]
    + [0x00, 0x00, 0x00, 0xfc, 0x00, 0x0a] + seq(12, _ => 0x20)
    + [0x00, 0x00, 0x00, 0x10] + seq(14, _ => 0x00)
    + [0x00, 0x00]

  /** The template is a full block: header, EDID version 1 revision 3, no extension blocks. */
  lemma UserTemplateShape()
    ensures |USER_TEMPLATE| == BLOCK_SIZE
    ensures USER_TEMPLATE[..8] == HEADER && USER_TEMPLATE[18] == 1 && USER_TEMPLATE[19] == 3
    ensures USER_TEMPLATE[126] == 0
  {
  }

  /** Consecutive byte stores: t written at at, the rest of the array kept. */
  method WriteBytes(a: array<u8>, at: nat, t: seq<u8>)
    requires at + |t| <= a.Length
    modifies a
    ensures a[at..at + |t|] == t
    ensures forall i | 0 <= i < a.Length && !(at <= i < at + |t|) :: a[i] == old(a[i])
  {
    var k := 0;
    while k < |t|
      invariant k <= |t|
      invariant a[at..at + k] == t[..k]
      invariant forall i | 0 <= i < a.Length && !(at <= i < at + k) :: a[i] == old(a[i])
    {
      a[at + k] := t[k];
      k := k + 1;
    }
  }

  /** The indices edid_init writes before the checksum. */
  predicate Filled(i: nat)
  {
    i in {12, 13, 14, 15, 16, 17, 21, 22} || 54 <= i <= 68
  }

  /** fw/User's edid[] array. */
  class UserEdid {
    const edid: array<u8>

    constructor ()
      ensures edid.Length == BLOCK_SIZE && edid[..] == USER_TEMPLATE && fresh(edid)
    {
      UserTemplateShape();
      edid := new u8[BLOCK_SIZE](i requires 0 <= i < BLOCK_SIZE => USER_TEMPLATE[i]);
    }

    /**
     * edid_init with the configuration and board_get_uid's value as
     * parameters: the manufacture date, screen size in cm, the timing
     * descriptor and the serial are written, other bytes before 127 are
     * kept, and byte 127 makes the block sum to 0 modulo 256.
     */
    method Init(c: Config, uid: u32)
      requires edid.Length == BLOCK_SIZE
      modifies edid
      ensures edid[16] == c.mfgWeek && edid[17] == c.mfgYear
      ensures edid[21] == (c.sizeXMm / 10) % 256 && edid[22] == (c.sizeYMm / 10) % 256
      ensures edid[54..69] == TimingBytes(c)
      ensures edid[12..16] == BigEndian(uid)
      ensures forall i | 0 <= i < 127 && !Filled(i) :: edid[i] == old(edid[i])
      ensures Sum(edid[..]) % 256 == 0
    {
      edid[16] := c.mfgWeek;
      edid[17] := c.mfgYear;
      edid[21] := (c.sizeXMm / 10) % 256;
      edid[22] := (c.sizeYMm / 10) % 256;
      WriteBytes(edid, 54, TimingBytes(c));
      WriteBytes(edid, 12, BigEndian(uid));
      ghost var filled := edid[..127];
      FixChecksum(edid, 0, 127);
      assert edid[..127] == filled;
      assert edid[..] == edid[..127] + [edid[127]];
    }
  }

  // ---------------------------------------------------------------
  // fw: the block behind a register byte, served over I2C
  // ---------------------------------------------------------------

  /** The exclusive or of two bytes. */
  function Xor8(a: u8, b: u8): u8
  {
    ((a as bv8) ^ (b as bv8)) as int
  }

  /** fw's serial: the 8-byte board id folded to 4 bytes. */
  function FoldedSerial(id: seq<u8>): (r: seq<u8>)
    requires |id| == 8
    ensures |r| == 4 && forall k | 0 <= k < 4 :: r[k] == Xor8(id[k], id[k + 4])
  {
    [Xor8(id[0], id[4]), Xor8(id[1], id[5]), Xor8(id[2], id[6]), Xor8(id[3], id[7])]
  }

  /**
   * As written, the handler reads edid[addr + 1] for any address byte the
   * host sends; the array ends at index 128, so an address of 128 or more
   * reads outside it (None here) until the 8-bit address counts past 255
   * to 0 and the reset at 128 applies again.
   */
  function ReadIndexAsWritten(addr: u8): Option<nat>
  {
    if addr + 1 < BLOCK_SIZE + 1 then Some(addr + 1) else None
  }

  lemma HighAddressReadsOutsideAsWritten()
    ensures ReadIndexAsWritten(127) == Some(128)
    ensures ReadIndexAsWritten(128) == None
  {
  }

  /** The bytes served by k reads from block offset a: the block from a on, wrapping after byte 127. */
  function Served(block: seq<u8>, a: nat, k: nat): (r: seq<u8>)
    requires |block| == BLOCK_SIZE
  {
    seq(k, j requires 0 <= j => block[(a + j) % BLOCK_SIZE])
  }

  lemma ServedSnoc(block: seq<u8>, a: nat, i: nat)
    requires |block| == BLOCK_SIZE
    ensures Served(block, a, i + 1) == Served(block, a, i) + [block[(a + i) % BLOCK_SIZE]]
  {
  }

  lemma ModNext(a: nat, i: nat)
    ensures ((a + i) % BLOCK_SIZE + 1) % BLOCK_SIZE == (a + i + 1) % BLOCK_SIZE
  {
  }

  /** fw's edid[] (register byte first) and the handler's static addr. */
  class PicoEdid {
    const edid: array<u8>
    var addr: nat

    predicate Valid()
      reads this
    {
      edid.Length == BLOCK_SIZE + 1 && addr < BLOCK_SIZE
    }

    /** The EDID block itself, without the register byte. */
    function Block(): (b: seq<u8>)
      reads this, edid
      requires Valid()
      ensures |b| == BLOCK_SIZE
    {
      edid[1..]
    }

    /** The static array built from the board's compile-time screen constants (the image). */
    constructor (image: seq<u8>)
      requires |image| == BLOCK_SIZE + 1
      ensures Valid() && edid[..] == image && addr == 0 && fresh(edid)
    {
      edid := new u8[BLOCK_SIZE + 1](i requires 0 <= i < BLOCK_SIZE + 1 => image[i]);
      addr := 0;
    }

    /**
     * edid_init: the serial bytes 13 .. 16 become the folded board id, and
     * edid[128] makes bytes 1 .. 128, the block, sum to 0 modulo 256; the
     * register byte and the other bytes are kept.
     */
    method Init(id: seq<u8>)
      requires Valid() && |id| == 8
      modifies edid
      ensures Valid() && addr == old(addr)
      ensures edid[13..17] == FoldedSerial(id)
      ensures forall i | 0 <= i < BLOCK_SIZE && !(13 <= i < 17) :: edid[i] == old(edid[i])
      ensures Sum(Block()) % 256 == 0
    {
      edid[13] := Xor8(id[0], id[4]);
      edid[14] := Xor8(id[1], id[5]);
      edid[15] := Xor8(id[2], id[6]);
      edid[16] := Xor8(id[3], id[7]);
      assert edid[13..17] == FoldedSerial(id);
      ghost var filled := edid[..BLOCK_SIZE];
      FixChecksum(edid, 1, BLOCK_SIZE);
      assert edid[..BLOCK_SIZE] == filled;
      assert Block() == edid[1..BLOCK_SIZE] + [edid[BLOCK_SIZE]];
    }

    /** I2C_SLAVE_RECEIVE, corrected: the byte written is the offset within the 128-byte block. */
    method Receive(b: u8)
      requires Valid()
      modifies this
      ensures Valid() && addr == b % BLOCK_SIZE
    {
      addr := b % BLOCK_SIZE;
    }

    /** I2C_SLAVE_REQUEST: the block byte at the offset is sent and the offset moves on, wrapping at 128. */
    method Request() returns (out: u8)
      requires Valid()
      modifies this
      ensures Valid() && out == Block()[old(addr)] && addr == (old(addr) + 1) % BLOCK_SIZE
    {
      out := edid[addr + 1];
      addr := addr + 1;
      if addr == BLOCK_SIZE {
        addr := 0;
      }
    }

    /** k requests in a row: the host reads the block sequentially, wrapping round. */
    method RequestMany(k: nat) returns (out: seq<u8>)
      requires Valid()
      modifies this
      ensures Valid() && out == Served(Block(), old(addr), k) && addr == (old(addr) + k) % BLOCK_SIZE
    {
      out := [];
      var i := 0;
      while i < k
        invariant Valid() && i <= k
        invariant addr == (old(addr) + i) % BLOCK_SIZE
        invariant out == Served(Block(), old(addr), i)
      {
        ModNext(old(addr), i);
        ServedSnoc(Block(), old(addr), i);
        var b := Request();
        out := out + [b];
        i := i + 1;
      }
    }
  }
}
