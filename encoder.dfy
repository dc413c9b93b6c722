/**
 * The frame encoder: a cursor over a caller's buffer that writes a header,
 * appends body fields and finally patches the body length into the header
 * and appends the CRC-32C trailer.
 */
module Encoder {
  import opened Errors
  import opened Bytes
  import opened Varint
  import opened Crc32c
  import opened Frame

  /**
   * The frame as `finish_crc32c` leaves it, given the bytes from the header
   * start up to the write position: the body length (truncated to 32 bits)
   * patched in at offset 10, then the CRC-32C of the patched bytes appended.
   */
  function Finished(frame: seq<byte>): (r: seq<byte>)
    requires |frame| >= HEADER_SIZE
    ensures |r| == |frame| + TRAILER_SIZE
  {
    var patched := Splice(frame, LEN_OFFSET, LeBytes((|frame| - HEADER_SIZE) % 0x1_0000_0000, 4));
    patched + LeBytes(ChecksumValue(patched), 4)
  }

  /** What `put_varbytes` writes: the length as a LEB128 u32 (truncated to 32 bits), then the bytes. */
  function Varbytes(bytes: seq<byte>): (r: seq<byte>)
    ensures |r| == |Leb128(|bytes| % 0x1_0000_0000)| + |bytes|
  {
    Leb128(|bytes| % 0x1_0000_0000) + bytes
  }

  /** `FrameEncoder`: the buffer and three offsets into it. */
  class FrameEncoder {
    const buf: array<byte>
    var pos: nat
    var headerStart: nat
    var bodyStart: nat

    /** The offsets are ordered and inside the buffer. */
    predicate Valid()
      reads this
    {
      headerStart <= bodyStart <= pos <= buf.Length
    }

    /** What the fixed-size writers promise: w appended at pos, or ShortBuffer and nothing changed. */
    twostate predicate Appended(w: seq<byte>, new r: Result<()>)
      reads this, buf
    {
      && headerStart == old(headerStart) && bodyStart == old(bodyStart)
      && (old(pos) + |w| <= buf.Length ==>
            r == Ok(()) && pos == old(pos) + |w| && buf[..] == Splice(old(buf[..]), old(pos), w))
      && (old(pos) + |w| > buf.Length ==>
            r == Err(ShortBuffer) && pos == old(pos) && buf[..] == old(buf[..]))
    }

    /** `new`: all offsets at the start of the buffer. */
    constructor New(buf: array<byte>)
      ensures this.buf == buf && pos == 0 && headerStart == 0 && bodyStart == 0
      ensures Valid()
    {
      this.buf := buf;
      pos := 0;
      headerStart := 0;
      bodyStart := 0;
    }

    /**
     * `begin`: writes the header at pos, which becomes the header start; the
     * body starts after it. Only the buffer's total length is checked, so a
     * header that would run past the end is the caller's fault.
     */
    method Begin(header: FrameHeader) returns (r: Result<()>)
      requires Valid()
      requires buf.Length < HEADER_SIZE || pos + HEADER_SIZE <= buf.Length
      modifies this, buf
      ensures Valid()
      ensures buf.Length < HEADER_SIZE ==>
        r == Err(ShortBuffer) && buf[..] == old(buf[..])
        && pos == old(pos) && headerStart == old(headerStart) && bodyStart == old(bodyStart)
      ensures buf.Length >= HEADER_SIZE ==>
        && r == Ok(())
        && headerStart == old(pos) && pos == bodyStart == old(pos) + HEADER_SIZE
        && buf[..] == Splice(old(buf[..]), old(pos), HeaderBytes(header))
    {
      if buf.Length < HEADER_SIZE {
        return Err(ShortBuffer);
      }
      headerStart := pos;
      WriteBytes(buf, pos, HeaderBytes(header));
      pos := pos + HEADER_SIZE;
      bodyStart := pos;
      return Ok(());
    }

    /** `put_u8`. */
    method PutU8(value: byte) returns (r: Result<()>)
      requires Valid()
      modifies this, buf
      ensures Valid() && Appended([value], r)
    {
      if pos >= buf.Length {
        return Err(ShortBuffer);
      }
      buf[pos] := value;
      pos := pos + 1;
      assert buf[..] == Splice(old(buf[..]), old(pos), [value]);
      return Ok(());
    }

    /** `put_bytes`: the raw bytes, no length prefix. */
    method PutBytes(bytes: seq<byte>) returns (r: Result<()>)
      requires Valid()
      modifies this, buf
      ensures Valid() && Appended(bytes, r)
    {
      if pos + |bytes| > buf.Length {
        return Err(ShortBuffer);
      }
      WriteBytes(buf, pos, bytes);
      pos := pos + |bytes|;
      return Ok(());
    }

    /** `put_u16`: two bytes little-endian. */
    method PutU16(value: u16) returns (r: Result<()>)
      requires Valid()
      modifies this, buf
      ensures Valid() && Appended(LeBytes(value, 2), r)
    {
      r := PutBytes(LeBytes(value, 2));
    }

    /** `put_u32`: four bytes little-endian. */
    method PutU32(value: u32) returns (r: Result<()>)
      requires Valid()
      modifies this, buf
      ensures Valid() && Appended(LeBytes(value, 4), r)
    {
      r := PutBytes(LeBytes(value, 4));
    }

    /** `put_u64`: eight bytes little-endian. */
    method PutU64(value: u64) returns (r: Result<()>)
      requires Valid()
      modifies this, buf
      ensures Valid() && Appended(LeBytes(value, 8), r)
    {
      r := PutBytes(LeBytes(value, 8));
    }

    /** `put_i32`: the two's-complement bits as a u32. */
    method PutI32(value: i32) returns (r: Result<()>)
      requires Valid()
      modifies this, buf
      ensures Valid() && Appended(LeBytes(I32Bits(value), 4), r)
    {
      r := PutU32(I32Bits(value));
    }

    /** `put_i64`: the two's-complement bits as a u64. */
    method PutI64(value: i64) returns (r: Result<()>)
      requires Valid()
      modifies this, buf
      ensures Valid() && Appended(LeBytes(I64Bits(value), 8), r)
    {
      r := PutU64(I64Bits(value));
    }

    /** `put_bitmap`: always the 16-bit form. */
    method PutBitmap(bitmap: u16) returns (r: Result<()>)
      requires Valid()
      modifies this, buf
      ensures Valid() && Appended(LeBytes(bitmap, 2), r)
    {
      r := PutU16(bitmap);
    }

    /**
     * `put_varbytes`: the length (as a u32, so truncated past 4 GiB) as
     * LEB128, then the bytes. Not atomic: a prefix that does not fit is
     * written as far as it goes, and a payload that does not fit leaves pos
     * after the prefix.
     */
    method PutVarbytes(bytes: seq<byte>) returns (r: Result<()>)
      requires Valid()
      modifies this, buf
      ensures Valid() && headerStart == old(headerStart) && bodyStart == old(bodyStart)
      ensures var prefix := Leb128(|bytes| % 0x1_0000_0000);
        && (old(pos) + |prefix| > buf.Length ==>
              r == Err(ShortBuffer) && pos == old(pos)
              && buf[..] == old(buf[..])[..old(pos)] + prefix[..buf.Length - old(pos)])
        && (old(pos) + |prefix| <= buf.Length < old(pos) + |prefix| + |bytes| ==>
              r == Err(ShortBuffer) && pos == old(pos) + |prefix|
              && buf[..] == Splice(old(buf[..]), old(pos), prefix))
        && (old(pos) + |prefix| + |bytes| <= buf.Length ==>
              r == Ok(()) && pos == old(pos) + |prefix| + |bytes|
              && buf[..] == Splice(old(buf[..]), old(pos), prefix + bytes))
    {
      var prefix := Leb128(|bytes| % 0x1_0000_0000);
      var n :- EncodeU32(|bytes| % 0x1_0000_0000, buf, pos);
      pos := pos + n;
      if pos + |bytes| > buf.Length {
        return Err(ShortBuffer);
      }
      WriteBytes(buf, pos, bytes);
      SpliceSplice(old(buf[..]), old(pos), prefix, bytes);
      pos := pos + |bytes|;
      return Ok(());
    }

    /** `put_varint_u32`: LEB128, written as far as it fits on ShortBuffer with pos unchanged. */
    method PutVarintU32(value: u32) returns (r: Result<()>)
      requires Valid()
      modifies this, buf
      ensures Valid() && headerStart == old(headerStart) && bodyStart == old(bodyStart)
      ensures old(pos) + |Leb128(value)| <= buf.Length ==>
        r == Ok(()) && pos == old(pos) + |Leb128(value)| && buf[..] == Splice(old(buf[..]), old(pos), Leb128(value))
      ensures old(pos) + |Leb128(value)| > buf.Length ==>
        r == Err(ShortBuffer) && pos == old(pos)
        && buf[..] == old(buf[..])[..old(pos)] + Leb128(value)[..buf.Length - old(pos)]
    {
      var n :- EncodeU32(value, buf, pos);
      pos := pos + n;
      return Ok(());
    }

    /** `put_varint_u64`: LEB128, written as far as it fits on ShortBuffer with pos unchanged. */
    method PutVarintU64(value: u64) returns (r: Result<()>)
      requires Valid()
      modifies this, buf
      ensures Valid() && headerStart == old(headerStart) && bodyStart == old(bodyStart)
      ensures old(pos) + |Leb128(value)| <= buf.Length ==>
        r == Ok(()) && pos == old(pos) + |Leb128(value)| && buf[..] == Splice(old(buf[..]), old(pos), Leb128(value))
      ensures old(pos) + |Leb128(value)| > buf.Length ==>
        r == Err(ShortBuffer) && pos == old(pos)
        && buf[..] == old(buf[..])[..old(pos)] + Leb128(value)[..buf.Length - old(pos)]
    {
      var n :- EncodeU64(value, buf, pos);
      pos := pos + n;
      return Ok(());
    }

    /** `position`. */
    function Position(): (p: nat)
      reads this
      requires Valid()
      ensures p <= buf.Length
    {
      pos
    }

    /** `remaining`: never negative, since pos stays inside the buffer. */
    function Remaining(): (n: nat)
      reads this
      requires Valid()
      ensures n + Position() == buf.Length
    {
      buf.Length - pos
    }

    /** `as_slice`: the bytes of the current frame so far. */
    function AsSlice(): (s: seq<byte>)
      reads this, buf
      requires Valid()
      ensures |s| == pos - headerStart
    {
      buf[headerStart..pos]
    }

    /**
     * `finish_crc32c`: patches the body length into the header, then appends
     * the CRC-32C of everything from the header start, and returns the frame
     * size. Not atomic: without room for the trailer the length is already
     * patched when ShortBuffer is returned. The patch is not bounds-checked,
     * so a buffer without room for it is the caller's fault.
     */
    method FinishCrc32c() returns (r: Result<nat>)
      requires Valid()
      requires headerStart + LEN_OFFSET + 4 <= buf.Length
      modifies this, buf
      ensures Valid() && headerStart == old(headerStart) && bodyStart == old(bodyStart)
      ensures var patched := Splice(old(buf[..]), headerStart + LEN_OFFSET,
                                    LeBytes((old(pos) - bodyStart) % 0x1_0000_0000, 4));
        && (old(pos) + TRAILER_SIZE > buf.Length ==>
              r == Err(ShortBuffer) && pos == old(pos) && buf[..] == patched)
        && (old(pos) + TRAILER_SIZE <= buf.Length ==>
              && pos == old(pos) + TRAILER_SIZE && r == Ok(pos - headerStart)
              && buf[..] == Splice(patched, old(pos), LeBytes(ChecksumValue(patched[headerStart..old(pos)]), 4)))
    {
      var bodyLen := pos - bodyStart;
      var lenOffset := headerStart + LEN_OFFSET;
      WriteBytes(buf, lenOffset, LeBytes(bodyLen % 0x1_0000_0000, 4));
      ghost var patched := buf[..];
      var frame := buf[headerStart..pos];
      assert frame == patched[headerStart..pos];
      var crc := Crc32c.Crc32c(frame);
      if pos + TRAILER_SIZE > buf.Length {
        return Err(ShortBuffer);
      }
      ghost var trailer := LeBytes(ChecksumValue(patched[headerStart..pos]), 4);
      assert LeBytes(crc, 4) == trailer;
      WriteBytes(buf, pos, LeBytes(crc, 4));
      assert buf[..] == Splice(patched, pos, trailer);
      pos := pos + TRAILER_SIZE;
      return Ok(pos - headerStart);
    }

    /** `reset`: all offsets back to the start; the buffer keeps its bytes. */
    method Reset()
      modifies this
      ensures pos == 0 && headerStart == 0 && bodyStart == 0
      ensures Valid()
    {
      pos := 0;
      headerStart := 0;
      bodyStart := 0;
    }
  }

  // ---------------------------------------------------------------------------
  // Properties

  /**
   * When a frame was begun, finishing it turns the bytes from the header
   * start to pos into Finished of them: length patched, CRC appended.
   */
  lemma FinishedFrame(old_buf: seq<byte>, headerStart: nat, pos: nat)
    requires headerStart + HEADER_SIZE <= pos && pos + TRAILER_SIZE <= |old_buf|
    ensures var patched := Splice(old_buf, headerStart + LEN_OFFSET,
                                  LeBytes((pos - (headerStart + HEADER_SIZE)) % 0x1_0000_0000, 4));
      Splice(patched, pos, LeBytes(ChecksumValue(patched[headerStart..pos]), 4))[headerStart..pos + TRAILER_SIZE]
        == Finished(old_buf[headerStart..pos])
  {
    var lenBytes := LeBytes((pos - (headerStart + HEADER_SIZE)) % 0x1_0000_0000, 4);
    var patched := Splice(old_buf, headerStart + LEN_OFFSET, lenBytes);
    var frame := old_buf[headerStart..pos];
    var window := Splice(frame, LEN_OFFSET, lenBytes);
    SpliceWindow(old_buf, headerStart, pos, headerStart + LEN_OFFSET, lenBytes);
    assert patched[headerStart..pos] == window;
    var trailer := LeBytes(ChecksumValue(window), 4);
    assert Finished(frame) == window + trailer;
    SpliceExtends(patched, headerStart, pos, trailer);
  }
}
