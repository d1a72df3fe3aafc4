// The waveform flash-image decompressor: a 16-byte header (big-endian
// compressed length and header version), then 4-byte tokens, each a
// back-reference copy followed by one literal byte.

module WbfFlash {

  import opened Words
  import opened WaveBytes

  const MAX_DECOMP_SIZE := 0x10_0000
  const HEADER_SIZE := 16

  // ---------------------------------------------------------------
  // Byte readers
  // ---------------------------------------------------------------

  /** read_uint16_be: byte 0 shifted left by 8, or-ed with byte 1. */
  function ReadUint16Be(s: seq<u8>): (r: u16)
    requires |s| >= 2
    ensures r == BeValue(s[..2])
  {
    BeValueDigits(s[..2]);
    s[0] as int * 0x100 + s[1]
  }

  /** read_uint16_le: byte 0, or-ed with byte 1 shifted left by 8. */
  function ReadUint16Le(s: seq<u8>): (r: u16)
    requires |s| >= 2
    ensures r == LeValue(s[..2])
  {
    assert s[..2][1..][1..] == [];
    assert LeValue(s[..2][1..]) == s[1];
    s[0] as int + s[1] as int * 0x100
  }

  /** read_uint32_be: bytes 0..3 shifted left by 24, 16, 8 and 0 and or-ed together. */
  function ReadUint32Be(s: seq<u8>): (r: u32)
    requires |s| >= 4
    ensures r == BeValue(s[..4])
  {
    BeValueDigits(s[..4]);
    s[0] as int * 0x100_0000 + s[1] as int * 0x1_0000 + s[2] as int * 0x100 + s[3]
  }

  /** The big-endian value of two and of four bytes, digit by digit. */
  lemma BeValueDigits(b: seq<u8>)
    requires |b| == 2 || |b| == 4
    ensures |b| == 2 ==> BeValue(b) == b[0] as int * 0x100 + b[1]
    ensures |b| == 4 ==> BeValue(b) == b[0] as int * 0x100_0000 + b[1] as int * 0x1_0000 + b[2] as int * 0x100 + b[3]
  {
    assert BeValue(b[..1]) == b[0] by {
      assert b[..1][..0] == [];
    }
    assert b[..2][..1] == b[..1];
    if |b| == 4 {
      assert b[..3][..2] == b[..2];
      assert b[..4] == b;
      assert b[..3] == b[..4][..3];
    } else {
      assert b[..2] == b;
    }
  }

  /** The readers invert the byte orders they name: whatever bytes were written, their value reads back. */
  lemma ReadersInvert(v16: u16, v32: u32)
    ensures ReadUint16Be(BeBytes(v16, 2)) == v16
    ensures ReadUint16Le(LeBytes(v16, 2)) == v16
    ensures ReadUint32Be(BeBytes(v32, 4)) == v32
  {
    assert BeBytes(v16, 2)[..2] == BeBytes(v16, 2);
    assert LeBytes(v16, 2)[..2] == LeBytes(v16, 2);
    assert BeBytes(v32, 4)[..4] == BeBytes(v32, 4);
    BeValueOfBytes(v16, 2);
    LeValueOfBytes(v16, 2);
    BeValueOfBytes(v32, 4);
  }

  /** And conversely the bytes are determined by the value read. */
  lemma ReadersDetermineBytes(s: seq<u8>)
    requires |s| >= 4
    ensures BeBytes(ReadUint16Be(s), 2) == s[..2]
    ensures LeBytes(ReadUint16Le(s), 2) == s[..2]
    ensures BeBytes(ReadUint32Be(s), 4) == s[..4]
  {
    BeBytesOfValue(s[..2]);
    LeBytesOfValue(s[..2]);
    BeBytesOfValue(s[..4]);
  }

  // ---------------------------------------------------------------
  // Header
  // ---------------------------------------------------------------

  datatype Header = Header(compressedLen: u32, version: u32)

  /** The compressed length at bytes 0..3 and the header version at bytes 4..7, both big-endian. */
  function ReadHeader(file: seq<u8>): Header
    requires |file| >= 8
  {
    Header(ReadUint32Be(file), ReadUint32Be(file[4..]))
  }

  /** The verdict on a header: too short a file, an unknown version, or go ahead (noting a larger file). */
  datatype HeaderCheck = TooSmall | Unsupported | Accepted(larger: bool)

  /**
   * The check as the tool computes it: compressed_len + 16 is evaluated in
   * 32-bit unsigned arithmetic before it is compared with the file size.
   */
  function CheckHeaderAsWritten(h: Header, fileSize: nat): HeaderCheck
  {
    var need := (h.compressedLen + HEADER_SIZE) % 0x1_0000_0000;
    if need > fileSize then TooSmall
    else if h.version != 1 then Unsupported
    else Accepted(need < fileSize)
  }

  /** A compressed length within 16 of 2^32 wraps the sum, and a 16-byte file passes the size check. */
  lemma HeaderCheckWrapsAsWritten(h: Header)
    requires h == Header(0xFFFF_FFF0, 1)
    ensures CheckHeaderAsWritten(h, 16) == Accepted(true)
    ensures h.compressedLen + HEADER_SIZE > 16
  {
  }

  /** The check with the sum taken exactly: an accepted file holds the header and all compressed bytes. */
  function CheckHeader(h: Header, fileSize: nat): (c: HeaderCheck)
    ensures c.Accepted? <==> h.compressedLen + HEADER_SIZE <= fileSize && h.version == 1
    ensures c.Accepted? ==> (c.larger <==> h.compressedLen + HEADER_SIZE < fileSize)
    ensures c == TooSmall <==> h.compressedLen + HEADER_SIZE > fileSize
  {
    var need := h.compressedLen + HEADER_SIZE;
    if need > fileSize then TooSmall
    else if h.version != 1 then Unsupported
    else Accepted(need < fileSize)
  }

  /** Both checks agree whenever the sum fits in 32 bits. */
  lemma CheckHeaderAgrees(h: Header, fileSize: nat)
    requires h.compressedLen + HEADER_SIZE < 0x1_0000_0000
    ensures CheckHeaderAsWritten(h, fileSize) == CheckHeader(h, fileSize)
  {
  }

  // ---------------------------------------------------------------
  // Tokens
  // ---------------------------------------------------------------

  /** A token: copy len bytes from offset bytes back, then append byte. */
  datatype Token = Token(offset: u16, len: u8, byte: u8)

  /** The token at byte p: a little-endian 16-bit offset, the length, the literal. */
  function TokenAt(file: seq<u8>, p: nat): Token
    requires p + 4 <= |file|
  {
    Token(ReadUint16Le(file[p..]), file[p + 2], file[p + 3])
  }

  /** The four bytes of a token. */
  function TokenBytes(t: Token): (b: seq<u8>)
    ensures |b| == 4
  {
    LeBytes(t.offset, 2) + [t.len, t.byte]
  }

  lemma TokenAtBytes(t: Token, pre: seq<u8>, post: seq<u8>)
    ensures TokenAt(pre + TokenBytes(t) + post, |pre|) == t
  {
    var f := pre + TokenBytes(t) + post;
    assert f[|pre|..][..2] == LeBytes(t.offset, 2);
    LeValueOfBytes(t.offset, 2);
  }

  /** The output byte at index j: the byte written there, or the zero of a fresh buffer. */
  function At(out: seq<u8>, j: nat): u8
  {
    if j < |out| then out[j] else 0
  }

  /** out followed by n bytes, each read at src + i from what has been written so far. */
  function Copied(out: seq<u8>, src: nat, n: nat): (r: seq<u8>)
    ensures |r| == |out| + n
  {
    if n == 0 then out
    else
      var c := Copied(out, src, n - 1);
      c + [At(c, src + n - 1)]
  }

  /**
   * A copy may overlap what it writes: byte k of the copy repeats the byte
   * offset places before it, or is zero for offset 0; what was there before stays.
   */
  lemma {:induction false} CopiedBytes(out: seq<u8>, offset: nat, n: nat)
    requires offset <= |out|
    ensures Copied(out, |out| - offset, n)[..|out|] == out
    ensures var c := Copied(out, |out| - offset, n);
      forall k :: |out| <= k < |c| ==> c[k] == if offset == 0 then 0 else c[k - offset]
  {
    if n > 0 {
      CopiedBytes(out, offset, n - 1);
      var c := Copied(out, |out| - offset, n - 1);
      assert Copied(out, |out| - offset, n)[..|c|] == c;
    }
  }

  /**
   * One token applied to the output so far; None when it copies from before
   * the start of the output. A token with len 0 reads nothing, so its
   * offset is never looked at.
   */
  function ApplyToken(out: seq<u8>, t: Token): (r: Option<seq<u8>>)
    ensures r.Some? <==> t.len == 0 || t.offset <= |out|
  {
    if t.len == 0 then Some(out + [t.byte])
    else if t.offset > |out| then None
    else Some(Copied(out, |out| - t.offset, t.len) + [t.byte])
  }

  /** A token grows the output by exactly len + 1 bytes and keeps what was there. */
  lemma ApplyTokenGrows(out: seq<u8>, t: Token)
    requires t.len == 0 || t.offset <= |out|
    ensures |ApplyToken(out, t).value| == |out| + t.len + 1
    ensures ApplyToken(out, t).value[..|out|] == out
    ensures ApplyToken(out, t).value[|out| + t.len] == t.byte
  {
    if t.len > 0 {
      CopiedBytes(out, t.offset, t.len);
    }
  }

  /** With len 0 only the literal is written, whatever the offset. */
  lemma LiteralToken(out: seq<u8>, offset: u16, b: u8)
    ensures ApplyToken(out, Token(offset, 0, b)) == Some(out + [b])
  {
  }

  /** Offset 1 after a byte b repeats it: a run of len + 1 more copies of b. */
  lemma {:induction false} RunToken(out: seq<u8>, b: u8, n: nat)
    ensures Copied(out + [b], |out|, n) == out + [b] + seq(n, _ => b)
  {
    if n > 0 {
      RunToken(out, b, n - 1);
      var c := Copied(out + [b], |out|, n - 1);
      assert c == out + [b] + seq(n - 1, _ => b);
      assert At(c, |out| + n - 1) == b;
      assert c + [b] == out + [b] + seq(n, _ => b);
    }
  }

  /** The tokens in file[p..end], applied in turn to out. */
  datatype Inflated = Inflated(out: seq<u8>) | BadReference | Truncated

  function Inflate(file: seq<u8>, p: nat, end: nat, out: seq<u8>): Inflated
    decreases end - p
  {
    if p >= end then Inflated(out)
    else if p + 4 > |file| then Truncated
    else
      var r := ApplyToken(out, TokenAt(file, p));
      if r.None? then BadReference else Inflate(file, p + 4, end, r.value)
  }

  /** Whatever follows, inflation never shrinks the output. */
  lemma {:induction false} InflateGrows(file: seq<u8>, p: nat, end: nat, out: seq<u8>)
    ensures Inflate(file, p, end, out).Inflated? ==> |Inflate(file, p, end, out).out| >= |out|
    decreases end - p
  {
    if p < end && p + 4 <= |file| {
      var t := TokenAt(file, p);
      if t.len == 0 || t.offset <= |out| {
        ApplyTokenGrows(out, t);
        InflateGrows(file, p + 4, end, ApplyToken(out, t).value);
      }
    }
  }

  /** Tokens applied in turn to out. */
  function ApplyTokens(out: seq<u8>, ts: seq<Token>): Inflated
    decreases |ts|
  {
    if ts == [] then Inflated(out)
    else
      var r := ApplyToken(out, ts[0]);
      if r.None? then BadReference else ApplyTokens(r.value, ts[1..])
  }

  /** The encoder the decompressor inverts: the tokens' four bytes each, in order. */
  function EncodeTokens(ts: seq<Token>): (s: seq<u8>)
    ensures |s| == 4 * |ts|
  {
    if ts == [] then [] else EncodeTokens(ts[..|ts| - 1]) + TokenBytes(ts[|ts| - 1])
  }

  /** Token k of an encoding is read back at byte 4k. */
  lemma {:induction false} TokenAtEncoded(ts: seq<Token>, k: nat, rest: seq<u8>)
    requires k < |ts|
    ensures TokenAt(EncodeTokens(ts) + rest, 4 * k) == ts[k]
    decreases |ts|
  {
    var init := ts[..|ts| - 1];
    var last := TokenBytes(ts[|ts| - 1]);
    assert EncodeTokens(ts) + rest == EncodeTokens(init) + (last + rest);
    if k == |ts| - 1 {
      assert EncodeTokens(init) + (last + rest) == EncodeTokens(init) + last + rest;
      TokenAtBytes(ts[k], EncodeTokens(init), rest);
    } else {
      TokenAtEncoded(init, k, last + rest);
    }
  }

  /** Decompressing an encoding from token k on applies tokens k.. in order. */
  lemma {:induction false} InflateEncodedFrom(ts: seq<Token>, k: nat, out: seq<u8>, rest: seq<u8>)
    requires k <= |ts|
    ensures Inflate(EncodeTokens(ts) + rest, 4 * k, 4 * |ts|, out) == ApplyTokens(out, ts[k..])
    decreases |ts| - k
  {
    if k < |ts| {
      TokenAtEncoded(ts, k, rest);
      assert ts[k..][1..] == ts[k + 1..];
      var r := ApplyToken(out, ts[k]);
      if r.Some? {
        InflateEncodedFrom(ts, k + 1, r.value, rest);
      }
    }
  }

  /** Decompression inverts the token encoder: the encoded tokens are applied in order. */
  lemma InflateEncoded(ts: seq<Token>, rest: seq<u8>)
    ensures Inflate(EncodeTokens(ts) + rest, 0, 4 * |ts|, []) == ApplyTokens([], ts)
  {
    InflateEncodedFrom(ts, 0, [], rest);
    assert ts[0..] == ts;
  }

  /** Every byte as a token copying nothing. */
  function Literals(data: seq<u8>): (ts: seq<Token>)
    ensures |ts| == |data| && forall i :: 0 <= i < |data| ==> ts[i] == Token(0, 0, data[i])
  {
    seq(|data|, i requires 0 <= i < |data| => Token(0, 0, data[i]))
  }

  /** Literal tokens append their bytes. */
  lemma {:induction false} ApplyLiterals(out: seq<u8>, data: seq<u8>)
    ensures ApplyTokens(out, Literals(data)) == Inflated(out + data)
    decreases |data|
  {
    if data != [] {
      LiteralToken(out, 0, data[0]);
      assert Literals(data)[1..] == Literals(data[1..]);
      ApplyLiterals(out + [data[0]], data[1..]);
      assert out + [data[0]] + data[1..] == out + data;
    }
  }

  /** Any data, encoded as literals, decompresses back to itself. */
  lemma LiteralRoundTrip(data: seq<u8>, rest: seq<u8>)
    ensures Inflate(EncodeTokens(Literals(data)) + rest, 0, 4 * |data|, []) == Inflated(data)
  {
    InflateEncoded(Literals(data), rest);
    ApplyLiterals([], data);
    assert [] + data == data;
  }

  /** Tokens that each copy 255 bytes from offset 0 add 256 bytes apiece. */
  lemma {:induction false} ApplyFullTokens(out: seq<u8>, ts: seq<Token>)
    requires forall i :: 0 <= i < |ts| ==> ts[i] == Token(0, 255, 0)
    ensures ApplyTokens(out, ts).Inflated? && |ApplyTokens(out, ts).out| == |out| + 256 * |ts|
    decreases |ts|
  {
    if ts != [] {
      ApplyTokenGrows(out, ts[0]);
      ApplyFullTokens(ApplyToken(out, ts[0]).value, ts[1..]);
    }
  }

  /**
   * The tool stores every output byte at decomp_buffer[wrptr++] without
   * comparing wrptr with MAX_DECOMP_SIZE: 4097 tokens of 255 copied bytes
   * and a literal, 16388 input bytes, produce 1048832 bytes.
   */
  lemma InflateOverrunsBufferAsWritten(ts: seq<Token>, rest: seq<u8>)
    requires ts == seq(4097, _ => Token(0, 255, 0))
    ensures var r := Inflate(EncodeTokens(ts) + rest, 0, 4 * |ts|, []);
      r.Inflated? && |r.out| - 1 >= MAX_DECOMP_SIZE
  {
    InflateEncoded(ts, rest);
    ApplyFullTokens([], ts);
  }

  /**
   * The copy source as the tool computes it: wrptr_snapshot - offset + i in
   * 32-bit unsigned arithmetic, so an offset beyond the output written so
   * far wraps to an index near 2^32.
   */
  function CopySourceAsWritten(snapshot: u32, offset: u16, i: nat): nat
  {
    (snapshot - offset + i) % 0x1_0000_0000
  }

  /** A first token with offset 1 and a non-zero length reads decomp_buffer[0xFFFFFFFF]. */
  lemma CopySourceWrapsAsWritten(t: Token)
    requires t == Token(1, 1, 0)
    ensures ApplyToken([], t).None?
    ensures CopySourceAsWritten(0, t.offset, 0) == 0xFFFF_FFFF >= MAX_DECOMP_SIZE
  {
  }

  // ---------------------------------------------------------------
  // The decompressor
  // ---------------------------------------------------------------

  /** What the decompressor ends with. */
  datatype Outcome =
    | FileTooSmall
    | UnsupportedVersion
    | BadOffset
    | OutputFull
    | InputEnds
    | Done(size: nat, larger: bool)

  /**
   * The whole run: header checks, then tokens from byte 16 up to byte
   * 16 + compressed_len into the zero-filled static buffer. The header sum
   * is taken without wrap-around, a token that refers before the start of
   * the output or would overflow the buffer stops the run, and so does a
   * token that runs past the end of the file.
   */
  method Decompress(file: seq<u8>, buf: array<u8>) returns (res: Outcome)
    requires |file| >= 8
    requires buf.Length == MAX_DECOMP_SIZE && forall k :: 0 <= k < buf.Length ==> buf[k] == 0
    modifies buf
    ensures var c := CheckHeader(ReadHeader(file), |file|);
      (res == FileTooSmall <==> c == TooSmall) && (res == UnsupportedVersion <==> c == Unsupported)
    ensures var h := ReadHeader(file);
      var r := Inflate(file, HEADER_SIZE, HEADER_SIZE + h.compressedLen, []);
      && (res.Done? ==> CheckHeader(h, |file|) == Accepted(res.larger) && res.size <= MAX_DECOMP_SIZE
                        && r == Inflated(buf[..res.size]))
      && (res == BadOffset ==> r == BadReference)
      && (res == InputEnds ==> r == Truncated)
      && (res == OutputFull ==> r.Inflated? ==> |r.out| > MAX_DECOMP_SIZE)
  {
    var compressedLen := ReadUint32Be(file);
    var version := ReadUint32Be(file[4..]);
    if compressedLen + HEADER_SIZE > |file| {
      return FileTooSmall;
    }
    var larger := compressedLen + HEADER_SIZE < |file|;
    if version != 1 {
      return UnsupportedVersion;
    }
    var p := HEADER_SIZE;
    var end := HEADER_SIZE + compressedLen;
    var wrptr: nat := 0;
    ghost var whole := Inflate(file, HEADER_SIZE, end, []);
    while p < end
      invariant HEADER_SIZE <= p && wrptr <= buf.Length
      invariant forall k :: wrptr <= k < buf.Length ==> buf[k] == 0
      invariant Inflate(file, p, end, buf[..wrptr]) == whole
      decreases end - p
    {
      if p + 4 > |file| {
        return InputEnds;
      }
      var t := Token(ReadUint16Le(file[p..]), file[p + 2], file[p + 3]);
      assert t == TokenAt(file, p);
      if t.len > 0 && t.offset > wrptr {
        return BadOffset;
      }
      if wrptr + t.len + 1 > MAX_DECOMP_SIZE {
        ApplyTokenGrows(buf[..wrptr], t);
        InflateGrows(file, p + 4, end, ApplyToken(buf[..wrptr], t).value);
        return OutputFull;
      }
      wrptr := CopyToken(buf, wrptr, t);
      p := p + 4;
    }
    res := Done(wrptr, larger);
  }

  /**
   * One token into the buffer at wrptr: len bytes each read at
   * wrptr_snapshot - offset + i, then the literal.
   */
  method CopyToken(buf: array<u8>, wrptr: nat, t: Token) returns (wrptr': nat)
    requires (t.len == 0 || t.offset <= wrptr) && wrptr + t.len + 1 <= buf.Length
    requires forall k :: wrptr <= k < buf.Length ==> buf[k] == 0
    modifies buf
    ensures wrptr' == wrptr + t.len + 1
    ensures Some(buf[..wrptr']) == ApplyToken(old(buf[..wrptr]), t)
    ensures forall k :: wrptr' <= k < buf.Length ==> buf[k] == 0
  {
    ghost var out := buf[..wrptr];
    var snapshot := wrptr;
    if t.len == 0 {
      buf[wrptr] := t.byte;
      assert buf[..wrptr + 1] == out + [t.byte];
      return wrptr + 1;
    }
    var src := snapshot - t.offset;
    wrptr' := wrptr;
    var i := 0;
    while i < t.len
      invariant 0 <= i <= t.len && wrptr' == snapshot + i
      invariant buf[..wrptr'] == Copied(out, src, i)
      invariant forall k :: wrptr' <= k < buf.Length ==> buf[k] == 0
    {
      var rd := buf[src + i];
      assert rd == At(buf[..wrptr'], src + i);
      buf[wrptr'] := rd;
      wrptr' := wrptr' + 1;
      i := i + 1;
    }
    buf[wrptr'] := t.byte;
    assert buf[..wrptr' + 1] == Copied(out, src, t.len) + [t.byte];
    wrptr' := wrptr' + 1;
  }
}
