// Board helpers of fw/User: the SPI clock prescaler chosen for a target
// frequency and the USB serial-number string built from the board id.

module BoardSupport {
  import opened Words

  // ---------------------------------------------------------------
  // board_switch_spi_freq
  // ---------------------------------------------------------------

  /** The SPI kernel clock the thresholds are laid out for: 48 MHz / 2 = 24 MHz is the fastest setting. */
  const SPI_CLOCK_HZ: nat := 48_000_000

  /** The baud-rate divisor board_switch_spi_freq selects for a target frequency in Hz. */
  function Prescaler(target: u32): nat
  {
    if target >= 24_000_000 then 2
    else if target > 12_000_000 then 4
    else if target > 6_000_000 then 8
    else if target > 3_000_000 then 16
    else if target > 1_500_000 then 32
    else if target > 750_000 then 64
    else if target > 375_000 then 128
    else 256
  }

  /** The divisors the STM32 SPI offers. */
  predicate IsDivisor(p: nat)
  {
    p in {2, 4, 8, 16, 32, 64, 128, 256}
  }

  /**
   * The selection is the fastest clock not above the target: the clock
   * SPI_CLOCK_HZ / p does not exceed the target (down to the slowest
   * setting), and the next faster divisor would not be slower than the target.
   */
  lemma PrescalerFastestNotAbove(target: u32)
    ensures IsDivisor(Prescaler(target))
    ensures target >= SPI_CLOCK_HZ / 256 ==> SPI_CLOCK_HZ <= Prescaler(target) * target
    ensures Prescaler(target) > 2 ==> (Prescaler(target) / 2) * target <= SPI_CLOCK_HZ
  {
  }

  /** A higher target never gets a larger divisor. */
  lemma PrescalerMonotone(slow: u32, fast: u32)
    requires slow <= fast
    ensures Prescaler(fast) <= Prescaler(slow)
  {
  }

  /** The SPI handle's configuration that board_switch_spi_freq rewrites. */
  class SpiHandle {
    var prescaler: nat

    constructor ()
      ensures prescaler == 256
    {
      prescaler := 256;
    }

    /** board_switch_spi_freq: the divisor for target is stored; de-initialising and re-initialising the peripheral are not modelled. */
    method SwitchFreq(target: u32)
      modifies this
      ensures prescaler == Prescaler(target) && IsDivisor(prescaler)
    {
      if target >= 24_000_000 {
        prescaler := 2;
      } else if target > 12_000_000 {
        prescaler := 4;
      } else if target > 6_000_000 {
        prescaler := 8;
      } else if target > 3_000_000 {
        prescaler := 16;
      } else if target > 1_500_000 {
        prescaler := 32;
      } else if target > 750_000 {
        prescaler := 64;
      } else if target > 375_000 {
        prescaler := 128;
      } else {
        prescaler := 256;
      }
    }
  }

  // ---------------------------------------------------------------
  // board_usb_get_serial
  // ---------------------------------------------------------------

  const HEX_DIGITS: seq<char> := "0123456789ABCDEF"

  function HexDigit(n: nat): char
    requires n < 16
  {
    HEX_DIGITS[n]
  }

  /** The value of an upper-case hexadecimal digit. */
  function HexValue(c: char): nat
  {
    if '0' <= c <= '9' then c as nat - '0' as nat
    else if 'A' <= c <= 'F' then c as nat - 'A' as nat + 10
    else 0
  }

  lemma HexDigitValue(n: nat)
    requires n < 16
    ensures HexValue(HexDigit(n)) == n
  {
  }

  /** The board id's bytes as they lie in memory on the little-endian core. */
  function UidBytes(uid: u32): (b: seq<u8>)
    ensures |b| == 4
  {
    [uid % 256, (uid / 0x100) % 256, (uid / 0x1_0000) % 256, uid / 0x100_0000]
  }

  lemma UidBytesRoundTrip(uid: u32)
    ensures var b: seq<int> := UidBytes(uid); b[0] + 0x100 * b[1] + 0x1_0000 * b[2] + 0x100_0000 * b[3] == uid
  {
    var q1 := uid / 256;
    var q2 := q1 / 256;
    assert uid == q1 * 256 + uid % 256;
    assert q1 == q2 * 256 + q1 % 256;
    assert q2 == (q2 / 256) * 256 + q2 % 256;
    assert uid / 0x1_0000 == q2 && uid / 0x100_0000 == q2 / 256;
  }

  /** Character k of the serial: byte k / 2 in hex, high nibble first. */
  function SerialChar(uid: u32, k: nat): char
    requires k < 8
  {
    var b := UidBytes(uid)[k / 2];
    if k % 2 == 0 then HexDigit(b / 16) else HexDigit(b % 16)
  }

  /** The serial's characters decode back to the id's bytes. */
  lemma SerialDecodes(uid: u32, i: nat)
    requires i < 4
    ensures HexValue(SerialChar(uid, 2 * i)) * 16 + HexValue(SerialChar(uid, 2 * i + 1)) == UidBytes(uid)[i]
  {
    var b := UidBytes(uid)[i];
    assert (2 * i) / 2 == i && (2 * i + 1) / 2 == i;
    HexDigitValue(b / 16);
    HexDigitValue(b % 16);
  }

  /** The number of id bytes that fit in max_chars UTF-16 units, two characters per byte. */
  function SerialBytes(maxChars: nat): nat
  {
    Min(4, maxChars / 2)
  }

  /** The inner loop of board_usb_get_serial: byte i of the id as two hex characters, high nibble first. */
  method PutByte(desc: array<u16>, i: nat, uid: u32)
    requires i < 4 && 2 * i + 2 <= desc.Length
    modifies desc
    ensures desc[2 * i] == SerialChar(uid, 2 * i) as int && desc[2 * i + 1] == SerialChar(uid, 2 * i + 1) as int
    ensures forall k | 0 <= k < desc.Length && k != 2 * i && k != 2 * i + 1 :: desc[k] == old(desc[k])
  {
    var b := UidBytes(uid)[i];
    assert (2 * i) / 2 == i && (2 * i + 1) / 2 == i && (2 * i) % 2 == 0 && (2 * i + 1) % 2 == 1;
    var j := 0;
    while j < 2
      invariant j <= 2
      invariant j >= 1 ==> desc[2 * i + 1] == SerialChar(uid, 2 * i + 1) as int
      invariant j >= 2 ==> desc[2 * i] == SerialChar(uid, 2 * i) as int
      invariant forall k | 0 <= k < desc.Length && k != 2 * i && k != 2 * i + 1 :: desc[k] == old(desc[k])
    {
      var nibble := if j == 0 then b % 16 else b / 16;
      desc[i * 2 + (1 - j)] := HexDigit(nibble) as int;
      j := j + 1;
    }
  }

  /**
   * board_usb_get_serial with board_get_uid's value as a parameter: the
   * first 2 * n units of desc become the serial's characters, n the number
   * of id bytes that fit, nothing beyond them is written, and the number
   * of characters is returned.
   */
  method UsbSerial(desc: array<u16>, maxChars: nat, uid: u32) returns (count: nat)
    requires maxChars <= desc.Length
    modifies desc
    ensures count == 2 * SerialBytes(maxChars) && count <= maxChars
    ensures forall k | 0 <= k < count :: desc[k] == SerialChar(uid, k) as int
    ensures desc[count..] == old(desc[count..])
  {
    var uidLen := 4;
    if uidLen > maxChars / 2 {
      uidLen := maxChars / 2;
    }
    var i := 0;
    while i < uidLen
      invariant i <= uidLen == SerialBytes(maxChars)
      invariant forall k | 0 <= k < 2 * i :: desc[k] == SerialChar(uid, k) as int
      invariant desc[2 * i..] == old(desc[2 * i..])
    {
      PutByte(desc, i, uid);
      i := i + 1;
    }
    count := 2 * uidLen;
  }
}
