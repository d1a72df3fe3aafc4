// Byte-level helpers shared by the waveform-file utilities: nibble access
// into packed look-up tables and little-endian multi-byte integers.

module WaveBytes {

  import opened Words

  // ---------------------------------------------------------------
  // Nibbles
  // ---------------------------------------------------------------

  /**
   * The 4-bit value at nibble address addr of a packed buffer: byte addr/2,
   * its low half for an even address and its high half for an odd one.
   */
  function ReadUint4(src: seq<u8>, addr: nat): (r: u8)
    requires addr / 2 < |src|
    ensures r < 16
  {
    if addr % 2 == 1 then src[addr / 2] / 16 % 16 else src[addr / 2] % 16
  }

  /** A byte holding lo in its low and hi in its high half. */
  function NibblePair(lo: nat, hi: nat): (b: u8)
    requires lo < 16 && hi < 16
  {
    hi * 16 + lo
  }

  /** Reading the two nibble addresses of a pair byte gives back its halves, even address first. */
  lemma ReadUint4Pair(src: seq<u8>, k: nat, lo: nat, hi: nat)
    requires k < |src| && lo < 16 && hi < 16 && src[k] == NibblePair(lo, hi)
    ensures ReadUint4(src, 2 * k) == lo && ReadUint4(src, 2 * k + 1) == hi
  {
    DivModSum(hi, lo, 16);
  }

  /** Every byte of a buffer is the pair of its two nibbles: nothing is lost by nibble access. */
  lemma ReadUint4Covers(src: seq<u8>, k: nat)
    requires k < |src|
    ensures src[k] == NibblePair(ReadUint4(src, 2 * k), ReadUint4(src, 2 * k + 1))
  {
  }

  // ---------------------------------------------------------------
  // Little-endian integers
  // ---------------------------------------------------------------

  function Pow256(k: nat): (p: nat)
    ensures p >= 1
  {
    if k == 0 then 1 else 256 * Pow256(k - 1)
  }

  /** Reference meaning of a little-endian byte string: byte i weighs 256^i. */
  function LeValue(b: seq<u8>): nat
  {
    if b == [] then 0 else b[0] + 256 * LeValue(b[1..])
  }

  /** The n low-order bytes of v, least significant first. */
  function LeBytes(v: nat, n: nat): (b: seq<u8>)
    ensures |b| == n
  {
    if n == 0 then [] else [v % 256] + LeBytes(v / 256, n - 1)
  }

  lemma {:induction false} LeValueBound(b: seq<u8>)
    ensures LeValue(b) < Pow256(|b|)
  {
    if b != [] {
      LeValueBound(b[1..]);
    }
  }

  /** Writing n bytes and reading them back is the identity on values below 256^n. */
  lemma {:induction false} LeValueOfBytes(v: nat, n: nat)
    requires v < Pow256(n)
    ensures LeValue(LeBytes(v, n)) == v
  {
    if n > 0 {
      var b := LeBytes(v, n);
      assert b[1..] == LeBytes(v / 256, n - 1);
      LeValueOfBytes(v / 256, n - 1);
    }
  }

  /** Reading n bytes and writing the value back reproduces the bytes. */
  lemma {:induction false} LeBytesOfValue(b: seq<u8>)
    ensures LeBytes(LeValue(b), |b|) == b
  {
    if b != [] {
      DivModSum(LeValue(b[1..]), b[0], 256);
      LeBytesOfValue(b[1..]);
    }
  }

  lemma DivDiv(a: nat, b: nat, c: nat)
    requires b > 0 && c > 0
    ensures a / b / c == a / (b * c)
  {
    var q := a / b / c;
    var m := a / b % c;
    var rem := m * b + a % b;
    assert a / b == q * c + m;
    assert a == (q * c + m) * b + a % b;
    assert a == q * (b * c) + rem;
    MulMono(m, c - 1, b);
    assert rem < b * c;
    DivModSum(q, rem, b * c);
  }

  /** Byte k of the little-endian form is the value shifted right by 8k bits, masked to 8 bits. */
  lemma {:induction false} LeBytesAt(v: nat, n: nat, k: nat)
    requires k < n
    ensures LeBytes(v, n)[k] == v / Pow256(k) % 256
  {
    if k > 0 {
      LeBytesAt(v / 256, n - 1, k - 1);
      DivDiv(v, 256, Pow256(k - 1));
    }
  }

  /**
   * read_uint64_le: the eight bytes at src[0..8] or-ed together, byte i
   * shifted left by 8i bits.
   */
  function ReadUint64Le(src: seq<u8>): (r: u64)
    requires |src| >= 8
    ensures r == LeValue(src[..8])
  {
    LeValue8(src[..8]);
    (src[7] as int) * 0x100_0000_0000_0000 + (src[6] as int) * 0x1_0000_0000_0000
    + (src[5] as int) * 0x100_0000_0000 + (src[4] as int) * 0x1_0000_0000
    + (src[3] as int) * 0x100_0000 + (src[2] as int) * 0x1_0000 + (src[1] as int) * 0x100 + src[0]
  }

  lemma LeValue8(b: seq<u8>)
    requires |b| == 8
    ensures LeValue(b) == (b[7] as int) * 0x100_0000_0000_0000 + (b[6] as int) * 0x1_0000_0000_0000
      + (b[5] as int) * 0x100_0000_0000 + (b[4] as int) * 0x1_0000_0000
      + (b[3] as int) * 0x100_0000 + (b[2] as int) * 0x1_0000 + (b[1] as int) * 0x100 + b[0]
  {
    var x0: int, x1: int, x2: int, x3: int := b[0], b[1], b[2], b[3];
    var x4: int, x5: int, x6: int, x7: int := b[4], b[5], b[6], b[7];
    assert b[7..][1..] == [];
    assert LeValue(b[7..]) == x7;
    assert b[6..][1..] == b[7..];
    assert LeValue(b[6..]) == x6 + 0x100 * x7;
    assert b[5..][1..] == b[6..];
    assert LeValue(b[5..]) == x5 + 0x100 * x6 + 0x1_0000 * x7;
    assert b[4..][1..] == b[5..];
    assert LeValue(b[4..]) == x4 + 0x100 * x5 + 0x1_0000 * x6 + 0x100_0000 * x7;
    assert b[3..][1..] == b[4..];
    assert LeValue(b[3..]) == x3 + 0x100 * x4 + 0x1_0000 * x5 + 0x100_0000 * x6 + 0x1_0000_0000 * x7;
    assert b[2..][1..] == b[3..];
    assert LeValue(b[2..]) == x2 + 0x100 * x3 + 0x1_0000 * x4 + 0x100_0000 * x5 + 0x1_0000_0000 * x6
      + 0x100_0000_0000 * x7;
    assert b[1..][1..] == b[2..];
    assert LeValue(b[1..]) == x1 + 0x100 * x2 + 0x1_0000 * x3 + 0x100_0000 * x4 + 0x1_0000_0000 * x5
      + 0x100_0000_0000 * x6 + 0x1_0000_0000_0000 * x7;
  }

  /**
   * write_uint64_le: stores byte i of val, (val >> 8i) & 0xff, at dst[at + i];
   * nothing else in dst changes.
   */
  method WriteUint64Le(dst: array<u8>, at: nat, val: u64)
    requires at + 8 <= dst.Length
    modifies dst
    ensures dst[at..at + 8] == LeBytes(val, 8)
    ensures dst[..at] == old(dst[..at]) && dst[at + 8..] == old(dst[at + 8..])
  {
    dst[at + 7] := val / 0x100_0000_0000_0000 % 0x100;
    dst[at + 6] := val / 0x1_0000_0000_0000 % 0x100;
    dst[at + 5] := val / 0x100_0000_0000 % 0x100;
    dst[at + 4] := val / 0x1_0000_0000 % 0x100;
    dst[at + 3] := val / 0x100_0000 % 0x100;
    dst[at + 2] := val / 0x1_0000 % 0x100;
    dst[at + 1] := val / 0x100 % 0x100;
    dst[at] := val % 0x100;
    LeBytesShifts(val);
  }

  /** The eight bytes of the little-endian form, as the shifts write_uint64_le uses. */
  lemma LeBytesShifts(val: u64)
    ensures LeBytes(val, 8) == [val % 0x100, val / 0x100 % 0x100, val / 0x1_0000 % 0x100,
      val / 0x100_0000 % 0x100, val / 0x1_0000_0000 % 0x100, val / 0x100_0000_0000 % 0x100,
      val / 0x1_0000_0000_0000 % 0x100, val / 0x100_0000_0000_0000 % 0x100]
  {
    LeBytesAt(val, 8, 1);
    LeBytesAt(val, 8, 2);
    LeBytesAt(val, 8, 3);
    LeBytesAt(val, 8, 4);
    LeBytesAt(val, 8, 5);
    LeBytesAt(val, 8, 6);
    LeBytesAt(val, 8, 7);
  }

  /** What write_uint64_le stores, read_uint64_le returns. */
  lemma ReadWriteUint64(val: u64)
    ensures ReadUint64Le(LeBytes(val, 8)) == val
  {
    assert LeBytes(val, 8)[..8] == LeBytes(val, 8);
    LeValueOfBytes(val, 8);
  }

  // ---------------------------------------------------------------
  // Big-endian integers
  // ---------------------------------------------------------------

  /** Reference meaning of a big-endian byte string: the last byte weighs 1, each earlier one 256 times more. */
  function BeValue(b: seq<u8>): nat
  {
    if b == [] then 0 else 256 * BeValue(b[..|b| - 1]) + b[|b| - 1]
  }

  /** The n low-order bytes of v, most significant first. */
  function BeBytes(v: nat, n: nat): (b: seq<u8>)
    ensures |b| == n
  {
    if n == 0 then [] else BeBytes(v / 256, n - 1) + [v % 256]
  }

  /** Writing n bytes big-endian and reading them back is the identity on values below 256^n. */
  lemma {:induction false} BeValueOfBytes(v: nat, n: nat)
    requires v < Pow256(n)
    ensures BeValue(BeBytes(v, n)) == v
  {
    if n > 0 {
      var b := BeBytes(v, n);
      assert b[..n - 1] == BeBytes(v / 256, n - 1);
      BeValueOfBytes(v / 256, n - 1);
    }
  }

  /** Reading n bytes big-endian and writing the value back reproduces the bytes. */
  lemma {:induction false} BeBytesOfValue(b: seq<u8>)
    ensures BeBytes(BeValue(b), |b|) == b
  {
    if b != [] {
      var init := b[..|b| - 1];
      DivModSum(BeValue(init), b[|b| - 1], 256);
      BeBytesOfValue(init);
      assert init + [b[|b| - 1]] == b;
    }
  }
}
