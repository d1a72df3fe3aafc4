// XMODEM framing (with the XMODEM-1K and YMODEM extensions): the CRC-16 and
// checksum block checks, the receiver's packet acceptance and storage, the
// transmitter's packet building, retry loop and end of transfer.
// The byte channel (_inbyte, _outbyte) becomes sequences of received bytes.

module Xmodem {

  import opened Words

  const SOH: u8 := 0x01
  const STX: u8 := 0x02
  const EOT: u8 := 0x04
  const ACK: u8 := 0x06
  const NAK: u8 := 0x15
  const CAN: u8 := 0x18
  const CTRLZ: u8 := 0x1A

  const MAXRETRANS: nat := 25
  /** Attempts at sending EOT before giving up. */
  const EOT_TRIES: nat := 10
  /** The packet buffer: 1024 data bytes, three header bytes and two CRC bytes. */
  const XBUF_SIZE: nat := 1024 + 3 + 2

  // ---------------------------------------------------------------
  // CRC-16/CCITT (polynomial 0x1021, initial value 0)
  // ---------------------------------------------------------------

  /** One byte through crc16_ccitt's shift-and-xor formulation of the division by 0x1021. */
  function CrcByte(crc: bv16, b: u8): bv16
  {
    var c0 := ((crc >> 8) | (crc << 8)) ^ (b as bv16);
    var c1 := c0 ^ ((c0 & 0xFF) >> 4);
    var c2 := c1 ^ (c1 << 12);
    c2 ^ ((c2 & 0xFF) << 5)
  }

  /** The register after feeding the bytes of data, in order, from register crc. */
  function Crc16From(crc: bv16, data: seq<u8>): bv16
  {
    if data == [] then crc else CrcByte(Crc16From(crc, data[..|data| - 1]), data[|data| - 1])
  }

  /** The CRC-16 of data: the register starts at 0. */
  function Crc16(data: seq<u8>): bv16
  {
    Crc16From(0, data)
  }

  /** The CRC of a + b is the CRC of b continued from the CRC of a: the bytes go in order. */
  lemma {:induction false} Crc16Concat(crc: bv16, a: seq<u8>, b: seq<u8>)
    ensures Crc16From(Crc16From(crc, a), b) == Crc16From(crc, a + b)
  {
    if b == [] {
      assert a + b == a;
    } else {
      assert (a + b)[..|a + b| - 1] == a + b[..|b| - 1];
      assert (a + b)[|a + b| - 1] == b[|b| - 1];
      Crc16Concat(crc, a, b[..|b| - 1]);
    }
  }

  /** The registers the check value below passes through, one byte at a time. */
  lemma CheckValueSteps()
    ensures CrcByte(0, 0x31) == 0x2672 && CrcByte(0x2672, 0x32) == 0x20b5 && CrcByte(0x20b5, 0x33) == 0x9752
    ensures CrcByte(0x9752, 0x34) == 0xd789 && CrcByte(0xd789, 0x35) == 0x546c && CrcByte(0x546c, 0x36) == 0x20e4
    ensures CrcByte(0x20e4, 0x37) == 0x86d6 && CrcByte(0x86d6, 0x38) == 0x9015 && CrcByte(0x9015, 0x39) == 0x31c3
  {
  }

  lemma CheckValueRegister4(d: seq<u8>)
    requires d == [0x31, 0x32, 0x33, 0x34, 0x35, 0x36, 0x37, 0x38, 0x39]
    ensures Crc16(d[..4]) == 0xd789
  {
    CheckValueSteps();
    assert d[..1][..0] == d[..0] == [] && d[..1][0] == 0x31;
    assert Crc16From(0, d[..0]) == 0;
    assert Crc16(d[..1]) == CrcByte(0, 0x31) == 0x2672;
    assert d[..2][..1] == d[..1];
    assert Crc16(d[..2]) == 0x20b5;
    assert d[..3][..2] == d[..2];
    assert Crc16(d[..3]) == 0x9752;
    assert d[..4][..3] == d[..3];
  }

  /**
   * The check value of CRC-16/XMODEM (the CCITT polynomial 0x1021 with a
   * zero initial register): the CRC of the nine ASCII digits "123456789"
   * is 0x31C3.
   */
  lemma Crc16CheckValue(d: seq<u8>)
    requires d == [0x31, 0x32, 0x33, 0x34, 0x35, 0x36, 0x37, 0x38, 0x39]
    ensures Crc16(d) == 0x31c3
  {
    CheckValueSteps();
    CheckValueRegister4(d);
    assert d[..5][..4] == d[..4];
    assert Crc16(d[..5]) == 0x546c;
    assert d[..6][..5] == d[..5];
    assert Crc16(d[..6]) == 0x20e4;
    assert d[..7][..6] == d[..6];
    assert Crc16(d[..7]) == 0x86d6;
    assert d[..8][..7] == d[..7];
    assert Crc16(d[..8]) == 0x9015;
    assert d[..9][..8] == d[..8];
    assert d[..9] == d;
  }

  /** crc16_ccitt: the register starts at 0 and takes every byte of the buffer in order. */
  method Crc16Ccitt(buffer: seq<u8>) returns (crc: bv16)
    ensures crc == Crc16(buffer)
  {
    crc := 0;
    var i := 0;
    while i != |buffer|
      invariant 0 <= i <= |buffer| && crc == Crc16(buffer[..i])
    {
      assert buffer[..i + 1][..i] == buffer[..i];
      crc := CrcByte(crc, buffer[i]);
      i := i + 1;
    }
    assert buffer[..i] == buffer;
  }

  // ---------------------------------------------------------------
  // Block checks
  // ---------------------------------------------------------------

  /** The 8-bit arithmetic checksum: the sum of the bytes, kept in an unsigned char. */
  function Checksum(data: seq<u8>): u8
  {
    if data == [] then 0 else (Checksum(data[..|data| - 1]) as int + data[|data| - 1] as int) % 256
  }

  /** The high and the low byte of a CRC, as the transmitter sends them (high first). */
  function Hi(c: bv16): u8 { (c as int) / 256 }
  function Lo(c: bv16): u8 { (c as int) % 256 }

  /** The bytes after a block's data: two CRC bytes, big-endian, or one checksum byte. */
  function TrailerSize(crcMode: bool): nat
  {
    if crcMode then 2 else 1
  }

  /**
   * check: in CRC mode the CRC of the sz data bytes equals the big-endian
   * value of the two bytes after them; in checksum mode the checksum of the
   * data equals the byte after them.
   */
  predicate BlockValid(crcMode: bool, buf: seq<u8>, sz: nat)
    requires |buf| >= sz + TrailerSize(crcMode)
  {
    if crcMode then Crc16(buf[..sz]) as int == (buf[sz] as int) * 256 + buf[sz + 1] as int
    else Checksum(buf[..sz]) == buf[sz]
  }

  /** check, with crc as the receiver holds it (0 checksum, 1 CRC, 2 CRC without ACKs). */
  method Check(crc: int, buf: seq<u8>, sz: nat) returns (ok: bool)
    requires |buf| >= sz + TrailerSize(crc != 0)
    ensures ok == BlockValid(crc != 0, buf, sz)
  {
    if crc != 0 {
      var c := Crc16Ccitt(buf[..sz]);
      var tcrc := (buf[sz] as int) * 256 + buf[sz + 1] as int;
      return c as int == tcrc;
    }
    var cks: u8 := 0;
    var i := 0;
    while i < sz
      invariant 0 <= i <= sz && cks == Checksum(buf[..i])
    {
      assert buf[..i + 1][..i] == buf[..i];
      cks := (cks as int + buf[i] as int) % 256;
      i := i + 1;
    }
    return cks == buf[sz];
  }

  /** The trailer the transmitter appends to a block of data. */
  function Trailer(crcMode: bool, data: seq<u8>): (t: seq<u8>)
    ensures |t| == TrailerSize(crcMode)
  {
    if crcMode then [Hi(Crc16(data)), Lo(Crc16(data))] else [Checksum(data)]
  }

  /** Two bytes hold a 16-bit value big-endian exactly when they are its high and low bytes. */
  lemma BigEndianBytes(c: int, h: u8, l: u8)
    requires 0 <= c < 0x1_0000
    ensures c == h * 256 + l <==> h == c / 256 && l == c % 256
  {
    if c == h * 256 + l {
      DivModSum(h, l, 256);
    }
  }

  /** A block passes the check exactly when its trailer is the one the transmitter computes. */
  lemma BlockValidIffTrailer(crcMode: bool, data: seq<u8>, t: seq<u8>)
    requires |t| == TrailerSize(crcMode)
    ensures BlockValid(crcMode, data + t, |data|) <==> t == Trailer(crcMode, data)
  {
    var buf := data + t;
    assert buf[..|data|] == data;
    if crcMode {
      var crc := Crc16(data);
      assert buf[|data|] == t[0] && buf[|data| + 1] == t[1];
      BigEndianBytes(crc as int, t[0], t[1]);
      assert Hi(crc) == (crc as int) / 256 && Lo(crc) == (crc as int) % 256;
      assert t == [t[0], t[1]];
    } else {
      assert buf[|data|] == t[0];
      assert t == [t[0]];
    }
  }

  // ---------------------------------------------------------------
  // Packets
  // ---------------------------------------------------------------

  /** ~b as an unsigned char. */
  function Complement(b: u8): u8 { 255 - b }

  /** The packet number that follows p in an unsigned char. */
  function Next(p: u8): u8 { (p + 1) % 256 }

  /** The packet number before p in an unsigned char: the one a repeated packet carries. */
  function Previous(p: u8): u8 { (p + 255) % 256 }

  lemma PreviousOfNext(p: u8)
    ensures Previous(Next(p)) == p
  {
  }

  /** The data size a start byte announces: 128 for SOH, 1024 for STX. */
  function BlockSizeOf(start: u8): nat
    requires start == SOH || start == STX
  {
    if start == SOH then 128 else 1024
  }

  /** A whole packet: start byte, number, complemented number, data, trailer. */
  function PacketLength(bufsz: nat, crcMode: bool): nat
  {
    3 + bufsz + TrailerSize(crcMode)
  }

  /**
   * The acceptance test of XmodemReceive as written: the number and its
   * complement agree, the number is the expected one or the one before
   * it, and the block passes the check. The one before is computed as
   * (unsigned char)packetno - 1, in int.
   */
  predicate AcceptedAsWritten(xbuff: seq<u8>, packetno: u8, crcMode: bool, bufsz: nat)
    requires |xbuff| == PacketLength(bufsz, crcMode)
  {
    xbuff[1] == Complement(xbuff[2])
    && (xbuff[1] == packetno || xbuff[1] == packetno - 1)
    && BlockValid(crcMode, xbuff[3..], bufsz)
  }

  /** The acceptance test with the number before packetno taken in an unsigned char. */
  predicate Accepted(xbuff: seq<u8>, packetno: u8, crcMode: bool, bufsz: nat)
    requires |xbuff| == PacketLength(bufsz, crcMode)
  {
    xbuff[1] == Complement(xbuff[2])
    && (xbuff[1] == packetno || xbuff[1] == Previous(packetno))
    && BlockValid(crcMode, xbuff[3..], bufsz)
  }

  /** The two tests differ only once the expected number has wrapped to 0. */
  lemma AcceptedAgrees(xbuff: seq<u8>, packetno: u8, crcMode: bool, bufsz: nat)
    requires |xbuff| == PacketLength(bufsz, crcMode) && packetno != 0
    ensures Accepted(xbuff, packetno, crcMode, bufsz) == AcceptedAsWritten(xbuff, packetno, crcMode, bufsz)
  {
  }

  /**
   * After 255 packets the expected number wraps to 0; a repeat of packet
   * 255 (its ACK was lost) is then refused by the test as written, and the
   * transfer can only end in an error, while the corrected test accepts it
   * as the repeat it is.
   */
  lemma RepeatAfterWrapRefusedAsWritten(xbuff: seq<u8>)
    requires xbuff == [SOH, 255, 0] + seq(128, _ => 0) + [0]
    ensures !AcceptedAsWritten(xbuff, 0, false, 128)
    ensures Accepted(xbuff, 0, false, 128) && xbuff[1] == Previous(0)
  {
    var data: seq<u8> := seq(128, _ => 0);
    assert xbuff[3..] == data + [0];
    ChecksumZeros(data);
    BlockValidIffTrailer(false, data, [0]);
  }

  lemma {:induction false} ChecksumZeros(data: seq<u8>)
    requires forall i | 0 <= i < |data| :: data[i] == 0
    ensures Checksum(data) == 0
  {
    if data != [] {
      ChecksumZeros(data[..|data| - 1]);
    }
  }

  /** The data block the transmitter sends: the chunk, padded with CTRLZ (0 for YMODEM). */
  function Padded(chunk: seq<u8>, bufsz: nat, ymodem: bool): (d: seq<u8>)
    requires |chunk| <= bufsz
    ensures |d| == bufsz && d[..|chunk|] == chunk
    ensures forall i | |chunk| <= i < bufsz :: d[i] == (if ymodem then 0 else CTRLZ)
  {
    chunk + seq(bufsz - |chunk|, _ => if ymodem then 0 else CTRLZ)
  }

  /** The packet the transmitter sends for a chunk under packet number packetno. */
  function Packet(packetno: u8, chunk: seq<u8>, bufsz: nat, crcMode: bool, ymodem: bool): seq<u8>
    requires bufsz == 128 || bufsz == 1024
    requires |chunk| <= bufsz
  {
    var data := Padded(chunk, bufsz, ymodem);
    [if bufsz == 1024 then STX else SOH, packetno, Complement(packetno)] + data + Trailer(crcMode, data)
  }

  /**
   * A packet the transmitter builds is read back by the receiver: its
   * start byte announces its size, the receiver expecting that number
   * accepts it, and the data bytes begin with the chunk.
   */
  lemma SentPacketAccepted(packetno: u8, chunk: seq<u8>, bufsz: nat, crcMode: bool, ymodem: bool)
    requires bufsz == 128 || bufsz == 1024
    requires |chunk| <= bufsz
    ensures var p := Packet(packetno, chunk, bufsz, crcMode, ymodem);
      && |p| == PacketLength(bufsz, crcMode)
      && (p[0] == SOH || p[0] == STX) && BlockSizeOf(p[0]) == bufsz
      && Accepted(p, packetno, crcMode, bufsz)
      && p[3..3 + |chunk|] == chunk
  {
    var data := Padded(chunk, bufsz, ymodem);
    var p := Packet(packetno, chunk, bufsz, crcMode, ymodem);
    assert p[3..] == data + Trailer(crcMode, data);
    BlockValidIffTrailer(crcMode, data, Trailer(crcMode, data));
    assert p[3..3 + |chunk|] == data[..|chunk|];
  }

  // ---------------------------------------------------------------
  // Receiving
  // ---------------------------------------------------------------

  /** What the receiver does after a whole packet has arrived. */
  datatype RecvStep =
    | Nak                          // refused: flush the input and send NAK
    | Acked(sendAck: bool)         // accepted; ACK goes out unless in YMODEM-G
    | ControlReceived(len: int, sendAck: bool)  // YMODEM mode: ACK as above, then the control block ends the call
    | TooManyRetries               // -3: too many repeats; CAN CAN CAN goes out

  // ---------------------------------------------------------------
  // Waiting for a start byte, reading a packet
  // ---------------------------------------------------------------

  /** The number of tries either side makes while waiting for a start byte. */
  const MAXSYNCTRETRY: nat := 16

  /** Every read gives a byte, or a negative value when it times out. */
  predicate ReadsBytes(input: seq<int>)
  {
    forall i :: 0 <= i < |input| ==> input[i] < 256
  }

  /** How a wait for a start byte ends. */
  datatype Wait =
    | Heard(c: int, next: nat)   // one of the awaited bytes; reading goes on at next
    | CanceledByRemote           // CAN read twice in a row
    | Silent(next: nat)          // MAXSYNCTRETRY tries without a start byte

  /**
   * The wait from try number retry on, reading input from position k: a
   * byte in starts ends it, CAN followed by CAN cancels, and anything else
   * (another byte, a lone CAN together with the byte after it, a timeout)
   * uses up one try.
   */
  function AwaitFrom(input: seq<int>, k: nat, retry: nat, starts: set<int>): (w: Wait)
    ensures w.Heard? ==> w.c in starts && k < w.next && Reply(input, w.next - 1) == w.c
    ensures w.Silent? && retry <= MAXSYNCTRETRY ==> k + (MAXSYNCTRETRY - retry) <= w.next <= k + 2 * (MAXSYNCTRETRY - retry)
    decreases MAXSYNCTRETRY - retry
  {
    if retry >= MAXSYNCTRETRY then Silent(k)
    else
      var c := Reply(input, k);
      if c in starts then Heard(c, k + 1)
      else if c == CAN as int then
        if Reply(input, k + 1) == CAN as int then CanceledByRemote else AwaitFrom(input, k + 2, retry + 1, starts)
      else AwaitFrom(input, k + 1, retry + 1, starts)
  }

  /** The start-byte loop of XmodemReceive and XmodemTransmit, reading input from position k. */
  method Await(input: seq<int>, k: nat, starts: set<int>) returns (w: Wait)
    ensures w == AwaitFrom(input, k, 0, starts)
  {
    var pos := k;
    var retry := 0;
    while retry < MAXSYNCTRETRY
      invariant retry <= MAXSYNCTRETRY
      invariant AwaitFrom(input, pos, retry, starts) == AwaitFrom(input, k, 0, starts)
    {
      var c := Reply(input, pos);
      pos := pos + 1;
      if c in starts {
        return Heard(c, pos);
      }
      if c == CAN as int {
        c := Reply(input, pos);
        pos := pos + 1;
        if c == CAN as int {
          return CanceledByRemote;
        }
      }
      retry := retry + 1;
    }
    return Silent(pos);
  }

  /** A wait is canceled only after two CAN bytes in a row. */
  lemma {:induction false} CanceledAfterTwoCans(input: seq<int>, k: nat, retry: nat, starts: set<int>)
    requires CAN as int !in starts
    ensures AwaitFrom(input, k, retry, starts).CanceledByRemote? ==>
      exists j :: k <= j && Reply(input, j) == CAN as int && Reply(input, j + 1) == CAN as int
    decreases MAXSYNCTRETRY - retry
  {
    if retry < MAXSYNCTRETRY {
      var c := Reply(input, k);
      if c !in starts && c == CAN as int && Reply(input, k + 1) != CAN as int {
        CanceledAfterTwoCans(input, k + 2, retry + 1, starts);
      } else if c !in starts && c != CAN as int {
        CanceledAfterTwoCans(input, k + 1, retry + 1, starts);
      }
    }
  }

  /** On a silent line every read times out, and the wait gives up after exactly MAXSYNCTRETRY reads. */
  lemma {:induction false} SilenceGivesUp(k: nat, retry: nat, starts: set<int>)
    requires retry <= MAXSYNCTRETRY && forall c :: c in starts ==> c >= 0
    ensures AwaitFrom([], k, retry, starts) == Silent(k + MAXSYNCTRETRY - retry)
    decreases MAXSYNCTRETRY - retry
  {
    if retry < MAXSYNCTRETRY {
      SilenceGivesUp(k + 1, retry + 1, starts);
    }
  }

  /**
   * The rest of a packet after its start byte: number, complement, data and
   * check, each read with a timeout. A timeout rejects the packet (the input
   * is flushed and NAK goes out); otherwise the packet is whole.
   */
  method ReadPacket(input: seq<int>, k: nat, start: u8, crcMode: bool) returns (xbuff: Option<seq<u8>>)
    requires ReadsBytes(input) && (start == SOH || start == STX)
    ensures var n := PacketLength(BlockSizeOf(start), crcMode) - 1;
      && (xbuff.Some? <==> forall j :: k <= j < k + n ==> Reply(input, j) >= 0)
      && (xbuff.Some? ==> |xbuff.value| == n + 1 && xbuff.value[0] == start
                          && forall j :: 1 <= j <= n ==> xbuff.value[j] as int == Reply(input, k + j - 1))
  {
    var n := PacketLength(BlockSizeOf(start), crcMode) - 1;
    var p := [start];
    var i := 0;
    while i < n
      invariant i <= n && |p| == i + 1 && p[0] == start
      invariant forall j :: k <= j < k + i ==> Reply(input, j) >= 0
      invariant forall j :: 1 <= j <= i ==> p[j] as int == Reply(input, k + j - 1)
    {
      var c := Reply(input, k + i);
      if c < 0 {
        return None;
      }
      p := p + [c as u8];
      i := i + 1;
    }
    return Some(p);
  }

  /**
   * How a wait for a start byte ends for either side: the awaited byte
   * arrived, or the call returns code after sending answer.
   */
  datatype SyncStep =
    | Started(c: u8, next: nat)
    | Returned(code: int, answer: seq<u8>)

  /** The bytes of a new packet that still fit in destsz. */
  function StoreCount(destsz: int, len: int, bufsz: nat): int
  {
    Min(destsz - len, bufsz)
  }

  /** The bytes that start a packet or end the transfer. */
  const PacketStarts: set<int> := {SOH as int, STX as int, EOT as int}

  /** The receiving side of XmodemReceive. */
  class Receiver {
    var packetno: u8
    var len: int
    var retrans: int
    /** The bytes stored so far, in the caller's buffer or through storeChunk. */
    var stored: seq<u8>
    const destsz: int
    /** 0: checksum; 1: CRC; 2: CRC and no ACKs (YMODEM-G). */
    var crc: int
    /** Receive a YMODEM control packet (number 0) and return after it. */
    const ymodem: bool
    /** A packet has begun, so the try character is no longer sent. */
    var started: bool

    ghost predicate Valid()
      reads this
    {
      len == |stored| && len <= Max(destsz, 0) && 0 <= retrans <= MAXRETRANS
    }

    constructor(destsz: int, crc: int, mode: bool)
      ensures Valid() && this.destsz == destsz && this.crc == crc && ymodem == mode
      ensures packetno == (if mode then 0 else 1) && len == 0 && stored == [] && retrans == MAXRETRANS
      ensures !started
    {
      this.destsz := destsz;
      this.crc := crc;
      started := false;
      ymodem := mode;
      packetno := if mode then 0 else 1;
      len := 0;
      stored := [];
      retrans := MAXRETRANS;
    }

    /**
     * The wait for the next start byte; until a packet has begun the try
     * character ('G', 'C' or NAK by crc) goes out before every read. SOH or
     * STX begins a packet. EOT ends the transfer: storeChunk is called with
     * no data, ACK goes out and the length is returned. CAN CAN cancels (-1,
     * answered with ACK). Silence fails the sync (-2, answered with CAN CAN
     * CAN), except that an unanswered YMODEM-G request falls back once to
     * 'C' with CRC and waits again.
     */
    method Synchronize(input: seq<int>) returns (r: SyncStep)
      requires Valid()
      modifies this
      ensures Valid() && packetno == old(packetno) && len == old(len) && stored == old(stored) && retrans == old(retrans)
      ensures var w := AwaitFrom(input, 0, 0, PacketStarts);
        var fallback := w.Silent? && old(crc) == 2 && !old(started);
        var last := if fallback then AwaitFrom(input, w.next, 0, PacketStarts) else w;
        && crc == (if fallback then 1 else old(crc))
        && (last.Heard? && last.c != EOT as int ==> r == Started(last.c as u8, last.next) && started)
        && (last.Heard? && last.c == EOT as int ==> r == Returned(len, [ACK]) && started == old(started))
        && (last.CanceledByRemote? ==> r == Returned(Code(RemoteCancel), [ACK]) && started == old(started))
        && (last.Silent? ==> r == Returned(Code(NoSync), [CAN, CAN, CAN]) && started == old(started))
    {
      var w := Await(input, 0, PacketStarts);
      if w.Silent? && crc == 2 && !started {
        crc := 1;
        w := Await(input, w.next, PacketStarts);
      }
      match w
      case Heard(c, next) =>
        if c == EOT as int {
          return Returned(len, [ACK]);
        }
        started := true;
        return Started(c as u8, next);
      case CanceledByRemote =>
        return Returned(Code(RemoteCancel), [ACK]);
      case Silent(_) =>
        return Returned(Code(NoSync), [CAN, CAN, CAN]);
    }

    /**
     * The packet xbuff has arrived whole. A refused packet changes nothing.
     * A new packet stores what still fits of its data and advances the
     * expected number; a repeat of the last one is acknowledged again
     * without being stored, and the MAXRETRANS-th repeat in a row gives up.
     */
    method OnPacket(xbuff: seq<u8>) returns (r: RecvStep)
      requires Valid() && retrans >= 1
      requires |xbuff| >= 1 && (xbuff[0] == SOH || xbuff[0] == STX)
      requires |xbuff| == PacketLength(BlockSizeOf(xbuff[0]), crc != 0)
      modifies this
      ensures Valid() && crc == old(crc) && started == old(started)
      ensures var bufsz := BlockSizeOf(xbuff[0]);
        if !Accepted(xbuff, old(packetno), crc != 0, bufsz) then
          r == Nak && packetno == old(packetno) && len == old(len) && stored == old(stored) && retrans == old(retrans)
        else if xbuff[1] == old(packetno) then
          var count := StoreCount(destsz, old(len), bufsz);
          && stored == old(stored) + (if count > 0 then xbuff[3..3 + count] else [])
          && packetno == Next(old(packetno)) && retrans == MAXRETRANS
          && r == (if ymodem then ControlReceived(len, crc != 2) else Acked(crc != 2))
        else
          && stored == old(stored) && packetno == old(packetno)
          && (old(retrans) == 1 ==> r == TooManyRetries)
          && (old(retrans) > 1 ==> retrans == old(retrans) - 1 && r == (if ymodem then ControlReceived(len, crc != 2) else Acked(crc != 2)))
    {
      var bufsz := BlockSizeOf(xbuff[0]);
      var ok := Check(crc, xbuff[3..], bufsz);
      if !(xbuff[1] == Complement(xbuff[2]) && (xbuff[1] == packetno || xbuff[1] == Previous(packetno)) && ok) {
        return Nak;
      }
      if xbuff[1] == packetno {
        var count := destsz - len;
        if count > bufsz {
          count := bufsz;
        }
        if count > 0 {
          stored := stored + xbuff[3..3 + count];
          len := len + count;
        }
        packetno := Next(packetno);
        retrans := MAXRETRANS + 1;
      }
      retrans := retrans - 1;
      if retrans <= 0 {
        return TooManyRetries;
      }
      if ymodem {
        return ControlReceived(len, crc != 2);
      }
      return Acked(crc != 2);
    }
  }

  // ---------------------------------------------------------------
  // Transmitting
  // ---------------------------------------------------------------

  /** The block size for what remains to send: 1024 when 1K blocks are allowed and more than 128 bytes remain. */
  function BlockSize(remaining: int, onek: bool): (bufsz: nat)
    ensures bufsz == 128 || bufsz == 1024
  {
    if onek && remaining > 128 then 1024 else 128
  }

  /**
   * The packet-building part of XmodemTransmit: header, data padded with
   * CTRLZ (0 for YMODEM), then the CRC or the checksum, written into xbuff.
   */
  method BuildPacket(xbuff: array<u8>, packetno: u8, chunk: seq<u8>, bufsz: nat, crc: int, ymodem: bool)
    requires xbuff.Length == XBUF_SIZE
    requires bufsz == 128 || bufsz == 1024
    requires 0 < |chunk| <= bufsz
    modifies xbuff
    ensures xbuff[..PacketLength(bufsz, crc != 0)] == Packet(packetno, chunk, bufsz, crc != 0, ymodem)
  {
    xbuff[0] := if bufsz == 1024 then STX else SOH;
    xbuff[1] := packetno;
    xbuff[2] := Complement(packetno);
    FillData(xbuff, chunk, bufsz, ymodem);
    ghost var data := Padded(chunk, bufsz, ymodem);
    ghost var header := xbuff[..3];
    assert header == [if bufsz == 1024 then STX else SOH, packetno, Complement(packetno)];
    WriteTrailer(xbuff, bufsz, crc, data);
    ghost var n := PacketLength(bufsz, crc != 0);
    assert xbuff[..3] == header;
    ThreeParts(xbuff[..], bufsz + 3, n);
  }

  /** A prefix of a packet buffer is its header, its data and its trailer. */
  lemma ThreeParts(s: seq<u8>, a: nat, b: nat)
    requires 3 <= a <= b <= |s|
    ensures s[..b] == s[..3] + s[3..a] + s[a..b]
  {
  }

  /** The data part of the packet: padding first, then the chunk over its start. */
  method FillData(xbuff: array<u8>, chunk: seq<u8>, bufsz: nat, ymodem: bool)
    requires xbuff.Length == XBUF_SIZE
    requires bufsz == 128 || bufsz == 1024
    requires |chunk| <= bufsz
    modifies xbuff
    ensures xbuff[3..bufsz + 3] == Padded(chunk, bufsz, ymodem)
    ensures forall i | 0 <= i < 3 :: xbuff[i] == old(xbuff[i])
  {
    forall i | 3 <= i < bufsz + 3 {
      xbuff[i] := if ymodem then 0 else CTRLZ;
    }
    forall i | 3 <= i < |chunk| + 3 {
      xbuff[i] := chunk[i - 3];
    }
    ghost var data := Padded(chunk, bufsz, ymodem);
    assert forall i | 0 <= i < bufsz :: xbuff[3..bufsz + 3][i] == data[i];
  }

  /** The trailer after the data: the CRC high byte first, or the checksum. */
  method WriteTrailer(xbuff: array<u8>, bufsz: nat, crc: int, ghost data: seq<u8>)
    requires xbuff.Length == XBUF_SIZE
    requires bufsz == 128 || bufsz == 1024
    requires xbuff[3..bufsz + 3] == data
    modifies xbuff
    ensures xbuff[bufsz + 3..bufsz + 3 + TrailerSize(crc != 0)] == Trailer(crc != 0, data)
    ensures forall i | 0 <= i < bufsz + 3 :: xbuff[i] == old(xbuff[i])
    ensures xbuff[3..bufsz + 3] == data
  {
    if crc != 0 {
      var ccrc := Crc16Ccitt(xbuff[3..bufsz + 3]);
      xbuff[bufsz + 3] := Hi(ccrc);
      xbuff[bufsz + 4] := Lo(ccrc);
    } else {
      var ccks: u8 := 0;
      var i := 3;
      while i < bufsz + 3
        invariant 3 <= i <= bufsz + 3 && ccks == Checksum(data[..i - 3])
      {
        assert data[..i - 2][..i - 3] == data[..i - 3];
        assert xbuff[i] == data[i - 3];
        ccks := (ccks as int + xbuff[i] as int) % 256;
        i := i + 1;
      }
      assert data[..bufsz] == data;
      xbuff[bufsz + 3] := ccks;
    }
  }

  /** How a packet's retry loop ends. */
  datatype SendOutcome =
    | Sent(attempts: nat)   // ACK after this many transmissions
    | Canceled              // -1: CAN CAN from the receiver
    | Failed                // -4: MAXRETRANS transmissions without an ACK

  /** The byte read at position k of the replies; past the end every read times out (-1). */
  function Reply(replies: seq<int>, k: nat): int
  {
    if k < |replies| then replies[k] else -1
  }

  /**
   * The retry loop from the attempt numbered tries on, reading replies
   * from position k: ACK ends it, CAN followed by CAN cancels, anything else
   * (a NAK, a lone CAN, a timeout) sends the packet again. In YMODEM-G no
   * reply is read and every packet counts as acknowledged.
   */
  function SendFrom(replies: seq<int>, k: nat, tries: nat, streaming: bool): SendOutcome
    decreases MAXRETRANS - tries
  {
    if tries >= MAXRETRANS then Failed
    else if streaming then Sent(tries + 1)
    else
      var c := Reply(replies, k);
      if c == ACK as int then Sent(tries + 1)
      else if c == CAN as int then
        if Reply(replies, k + 1) == CAN as int then Canceled else SendFrom(replies, k + 2, tries + 1, streaming)
      else SendFrom(replies, k + 1, tries + 1, streaming)
  }

  /** The retry loop of XmodemTransmit for one packet, over the replies the sender reads. */
  method SendWithRetries(replies: seq<int>, streaming: bool) returns (out: SendOutcome)
    ensures out == SendFrom(replies, 0, 0, streaming)
  {
    var k := 0;
    var retry := 0;
    while retry < MAXRETRANS
      invariant retry <= MAXRETRANS
      invariant SendFrom(replies, k, retry, streaming) == SendFrom(replies, 0, 0, streaming)
    {
      var c := if streaming then ACK as int else Reply(replies, k);
      if !streaming {
        k := k + 1;
      }
      if c == ACK as int {
        return Sent(retry + 1);
      }
      if c == CAN as int {
        c := Reply(replies, k);
        k := k + 1;
        if c == CAN as int {
          return Canceled;
        }
      }
      retry := retry + 1;
    }
    return Failed;
  }

  /** A transfer ends with Sent only after at most MAXRETRANS transmissions. */
  lemma {:induction false} SentWithinRetries(replies: seq<int>, k: nat, tries: nat, streaming: bool)
    ensures SendFrom(replies, k, tries, streaming).Sent? ==> tries < SendFrom(replies, k, tries, streaming).attempts <= MAXRETRANS
    decreases MAXRETRANS - tries
  {
    if tries < MAXRETRANS && !streaming {
      var c := Reply(replies, k);
      if c == CAN as int && Reply(replies, k + 1) != CAN as int {
        SentWithinRetries(replies, k + 2, tries + 1, streaming);
      } else if c != ACK as int && c != CAN as int {
        SentWithinRetries(replies, k + 1, tries + 1, streaming);
      }
    }
  }

  /** With no reply at all (every read times out) the loop gives up after MAXRETRANS transmissions. */
  lemma {:induction false} SilenceFails(k: nat, tries: nat)
    requires tries <= MAXRETRANS
    ensures SendFrom([], k, tries, false) == Failed
    decreases MAXRETRANS - tries
  {
    if tries < MAXRETRANS {
      SilenceFails(k + 1, tries + 1);
    }
  }

  /**
   * The end of a transfer that is not a YMODEM control block: EOT is sent
   * up to ten times until an ACK is read; the result is the length sent,
   * or -5 when no ACK came.
   */
  method FinishTransfer(replies: seq<int>, len: int) returns (code: int)
    ensures code == (if ACK as int in replies[..Min(EOT_TRIES, |replies|)] then len else -5)
  {
    var retry := 0;
    while retry < EOT_TRIES
      invariant retry <= EOT_TRIES
      invariant forall j | 0 <= j < retry && j < |replies| :: replies[j] != ACK as int
    {
      var c := Reply(replies, retry);
      if c == ACK as int {
        assert replies[..Min(EOT_TRIES, |replies|)][retry] == c;
        return len;
      }
      retry := retry + 1;
    }
    return -5;
  }

  /**
   * The buffer holds the packet for the bytes from len on: a block of the
   * size the remainder calls for, the next chunk of the source, framed
   * under packetno with the check crc selects.
   */
  predicate Staged(buffer: seq<u8>, src: seq<u8>, len: nat, packetno: u8, crc: int, onek: bool, ymodem: bool, bufsz: nat)
    requires len < |src|
  {
    && bufsz == BlockSize(|src| - len, onek)
    && PacketLength(bufsz, crc != 0) <= |buffer|
    && buffer[..PacketLength(bufsz, crc != 0)] == Packet(packetno, src[len..len + Min(|src| - len, bufsz)], bufsz, crc != 0, ymodem)
  }

  lemma StagedChunk(buffer: seq<u8>, src: seq<u8>, len: nat, packetno: u8, crc: int, onek: bool, ymodem: bool, bufsz: nat, c: nat)
    requires len < |src| && bufsz == BlockSize(|src| - len, onek) && c == Min(|src| - len, bufsz) && c > 0
    requires PacketLength(bufsz, crc != 0) <= |buffer|
    requires buffer[..PacketLength(bufsz, crc != 0)] == Packet(packetno, src[len..len + c], bufsz, crc != 0, ymodem)
    ensures Staged(buffer, src, len, packetno, crc, onek, ymodem, bufsz)
  {
  }

  /** The start of XmodemTransmit's packet loop, for the source src of which len bytes are sent. */
  method FetchPacket(xbuff: array<u8>, src: seq<u8>, len: nat, packetno: u8, crc: int, onek: bool, ymodem: bool)
    returns (bufsz: nat, more: bool)
    requires xbuff.Length == XBUF_SIZE
    modifies xbuff
    ensures more <==> |src| - len > 0
    ensures more ==> Staged(xbuff[..], src, len, packetno, crc, onek, ymodem, bufsz)
    ensures !more ==> unchanged(xbuff)
  {
    var c := |src| - len;
    bufsz := BlockSize(c, onek);
    if c > bufsz {
      c := bufsz;
    }
    if c <= 0 {
      return bufsz, false;
    }
    BuildPacket(xbuff, packetno, src[len..len + c], bufsz, crc, ymodem);
    StagedChunk(xbuff[..], src, len, packetno, crc, onek, ymodem, bufsz, c);
    return bufsz, true;
  }

  /** The bytes by which a receiver asks for a transfer. */
  const Requests: set<int> := {'G' as int, 'C' as int, NAK as int}

  /** The sending side of XmodemTransmit. */
  class Transmitter {
    var packetno: u8
    var len: int
    /** The whole source: the caller's buffer or what fetchChunk delivers. */
    const src: seq<u8>
    const onek: bool
    const ymodem: bool
    /** -1 until the receiver's start byte: 0 checksum, 1 CRC, 2 YMODEM-G. */
    var crc: int

    constructor(src: seq<u8>, onek: bool, mode: bool)
      ensures this.src == src && this.onek == onek && ymodem == mode
      ensures packetno == (if mode then 0 else 1) && len == 0 && crc == -1
    {
      this.src := src;
      this.onek := onek;
      ymodem := mode;
      packetno := if mode then 0 else 1;
      len := 0;
      crc := -1;
    }

    /**
     * The wait for the receiver's request: 'G', 'C' or NAK starts the
     * transfer with the check it asks for; CAN CAN cancels (-1, answered with
     * ACK); MAXSYNCTRETRY tries without a request fail (-2, CAN CAN CAN).
     */
    method Synchronize(input: seq<int>) returns (r: SyncStep)
      modifies this
      ensures packetno == old(packetno) && len == old(len)
      ensures var w := AwaitFrom(input, 0, 0, Requests);
        && (w.Heard? ==> r == Started(w.c as u8, w.next) && crc == (if w.c == 'G' as int then 2 else if w.c == 'C' as int then 1 else 0))
        && (w.CanceledByRemote? ==> r == Returned(Code(RemoteCancel), [ACK]) && crc == old(crc))
        && (w.Silent? ==> r == Returned(Code(NoSync), [CAN, CAN, CAN]) && crc == old(crc))
    {
      var w := Await(input, 0, Requests);
      match w
      case Heard(c, next) =>
        var started := OnStart(c);
        return Started(c as u8, next);
      case CanceledByRemote =>
        return Returned(Code(RemoteCancel), [ACK]);
      case Silent(_) =>
        return Returned(Code(NoSync), [CAN, CAN, CAN]);
    }

    /** The receiver's start byte picks the check: 'G' CRC without ACKs, 'C' CRC, NAK checksum. */
    method OnStart(c: int) returns (started: bool)
      modifies this
      ensures started <==> c == 'G' as int || c == 'C' as int || c == NAK as int
      ensures crc == (if c == 'G' as int then 2 else if c == 'C' as int then 1 else if c == NAK as int then 0 else old(crc))
      ensures packetno == old(packetno) && len == old(len)
    {
      if c == 'G' as int {
        crc := 2;
      } else if c == 'C' as int {
        crc := 1;
      } else if c == NAK as int {
        crc := 0;
      } else {
        return false;
      }
      return true;
    }

    /**
     * The next packet: while bytes remain, the next chunk of up to one
     * block under the current number, in a block of the size the remainder
     * calls for; nothing once the source is exhausted.
     */
    method NextPacket(xbuff: array<u8>) returns (bufsz: nat, more: bool)
      requires xbuff.Length == XBUF_SIZE && 0 <= len
      modifies xbuff
      ensures more <==> |src| - len > 0
      ensures more ==> Staged(xbuff[..], src, len, packetno, crc, onek, ymodem, bufsz)
      ensures !more ==> unchanged(xbuff)
    {
      var sent, number, check := len, packetno, crc;
      bufsz, more := FetchPacket(xbuff, src, sent, number, check, onek, ymodem);
      assert len == sent && packetno == number && crc == check;
    }

    /** An ACK moves on to the next number and counts the whole block as sent. */
    method OnAck(bufsz: nat)
      modifies this
      ensures packetno == Next(old(packetno)) && len == old(len) + bufsz && crc == old(crc)
    {
      packetno := Next(packetno);
      len := len + bufsz;
    }
  }

  // ---------------------------------------------------------------
  // Results
  // ---------------------------------------------------------------

  /** The ways a transfer fails. */
  datatype XferError = RemoteCancel | NoSync | RetriesExhausted | TransmitFailed | NoEotAck

  /** The return value of each failure: -1 to -5. */
  function Code(e: XferError): (code: int)
    ensures -5 <= code <= -1
  {
    match e
    case RemoteCancel => -1
    case NoSync => -2
    case RetriesExhausted => -3
    case TransmitFailed => -4
    case NoEotAck => -5
  }

  /** The failures have distinct codes, and none is a length a successful transfer returns. */
  lemma CodesDistinct(e1: XferError, e2: XferError, len: nat)
    ensures Code(e1) == Code(e2) <==> e1 == e2
    ensures Code(e1) != len
  {
  }
}
