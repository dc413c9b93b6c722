/**
 * The 16-byte little-endian frame header: its fields, its flag bits, the
 * validity check and the byte layout it is written in and read from.
 *
 *   offset  0  magic     u16
 *           2  ver       u8
 *           3  flags     u8
 *           4  msg_type  u16
 *           6  seq       u32   sequence number
 *          10  len       u32   body length
 *          14  reserved  2 bytes, written as zero, never read
 */
module Frame {
  import opened Errors
  import opened Bytes
  import opened Lib

  /** `FrameHeader::SIZE`. */
  const HEADER_SIZE: nat := 16

  /** Offset of the `len` field inside the header. */
  const LEN_OFFSET: nat := 10

  /** Bytes of the CRC-32C trailer that follows the body. */
  const TRAILER_SIZE: nat := 4

  /** `FrameFlags::PRESENCE_BITMAP`: the body carries a presence bitmap. */
  const PRESENCE_BITMAP: bv8 := 0x01

  /** `FrameFlags::RESERVED`: flag bits that must be zero. */
  const RESERVED: bv8 := 0xF8

  /** Largest body length `validate` accepts: the whole frame must fit MAX_FRAME_SIZE. */
  const MAX_BODY_LEN: nat := MAX_FRAME_SIZE - HEADER_SIZE - TRAILER_SIZE

  datatype FrameHeader = FrameHeader(magic: u16, ver: byte, flags: bv8, msgType: u16, sequence: u32, len: u32)
  {
    /** `has_flag`: some bit of flag is set. */
    predicate HasFlag(flag: bv8)
      ensures HasFlag(flag) ==> flag != 0 && flags != 0
      ensures flag != 0 && flags & flag == flag ==> HasFlag(flag)
    {
      flags & flag != 0
    }

    /** `set_flag`: the header with the bits of flag added; the Rust code updates the header in place. */
    function SetFlag(flag: bv8): (h: FrameHeader)
      ensures flag != 0 ==> h.HasFlag(flag)
      ensures h.(flags := flags) == this
    {
      this.(flags := flags | flag)
    }

    /** `clear_flag`: the header with the bits of flag removed; the Rust code updates the header in place. */
    function ClearFlag(flag: bv8): (h: FrameHeader)
      ensures !h.HasFlag(flag)
      ensures h.(flags := flags) == this
    {
      this.(flags := flags & !flag)
    }

    /**
     * `validate`: the first failing check, in the order magic, version,
     * reserved flags, frame size. The frame size 16 + len + 4 cannot overflow
     * (len is a u32 added in a 64-bit usize) and is never below 18.
     */
    function Validate(): (r: Result<()>)
      ensures r.Ok? <==> Valid()
      ensures r.Err? ==> r.error in {InvalidMagic, UnsupportedVersion, FlagConflict, Overflow}
    {
      if magic != FRAME_MAGIC then Err(InvalidMagic)
      else if ver != PROTOCOL_VERSION then Err(UnsupportedVersion)
      else if flags & RESERVED != 0 then Err(FlagConflict)
      else if TotalSize() < MIN_FRAME_SIZE || TotalSize() > MAX_FRAME_SIZE then Err(Overflow)
      else Ok(())
    }

    /** What a valid header is, stated field by field. */
    predicate Valid()
    {
      magic == 0xFEED && ver == 1 && flags & 0xF8 == 0 && len <= 16 * 1024 * 1024 - 20
    }

    /** `total_size`: header, body and trailer. */
    function TotalSize(): (n: nat)
      ensures n >= HEADER_SIZE + TRAILER_SIZE
      ensures n - (HEADER_SIZE + TRAILER_SIZE) == len
    {
      HEADER_SIZE + len + TRAILER_SIZE
    }

    /** `encode`: writes HeaderBytes at the front of buf, or reports ShortBuffer and writes nothing. */
    method Encode(buf: array<byte>) returns (r: Result<()>)
      modifies buf
      ensures buf.Length < HEADER_SIZE ==> r == Err(ShortBuffer) && buf[..] == old(buf[..])
      ensures buf.Length >= HEADER_SIZE ==> r == Ok(()) && buf[..] == Splice(old(buf[..]), 0, HeaderBytes(this))
    {
      if buf.Length < HEADER_SIZE {
        return Err(ShortBuffer);
      }
      WriteBytes(buf, 0, HeaderBytes(this));
      return Ok(());
    }
  }

  /** `FrameHeader::new`: magic 0xFEED, version 1, no flags. */
  function NewHeader(msgType: u16, sequence: u32, len: u32): (h: FrameHeader)
    ensures h.magic == FRAME_MAGIC && h.ver == PROTOCOL_VERSION && h.flags == 0
    ensures h.msgType == msgType && h.sequence == sequence && h.len == len
    ensures h.Validate().Ok? <==> len <= MAX_BODY_LEN
  {
    FrameHeader(FRAME_MAGIC, PROTOCOL_VERSION, 0, msgType, sequence, len)
  }

  /** `FrameHeader::default`: the header `new(0, 0, 0)` builds. */
  function DefaultHeader(): (h: FrameHeader)
    ensures h.Validate() == Ok(())
  {
    NewHeader(0, 0, 0)
  }

  /** The 16 bytes `encode` writes. */
  function HeaderBytes(h: FrameHeader): (r: seq<byte>)
    ensures |r| == HEADER_SIZE
    ensures r[14] == 0 && r[15] == 0
  {
    HeaderFront(h.magic, h.ver, h.flags, h.msgType, h.sequence) + LeBytes(h.len, 4) + [0, 0]
  }

  /** The first ten of those bytes: every field before len. */
  function HeaderFront(magic: u16, ver: byte, flags: bv8, msgType: u16, sequence: u32): (r: seq<byte>)
    ensures |r| == LEN_OFFSET
  {
    LeBytes(magic, 2) + [ver] + [flags as int] + LeBytes(msgType, 2) + LeBytes(sequence, 4)
  }

  /** The header fields at the front of buf, before validation; bytes 14 and 15 are not looked at. */
  function RawHeader(buf: seq<byte>): (h: FrameHeader)
    requires |buf| >= HEADER_SIZE
  {
    assert Pow256(2) == 0x1_0000 && Pow256(4) == 0x1_0000_0000;
    FrameHeader(LeValue(buf[0..2]), buf[2], buf[3] as bv8, LeValue(buf[4..6]),
      LeValue(buf[6..10]), LeValue(buf[10..14]))
  }

  /** `FrameHeader::decode`: UnexpectedEof below 16 bytes, else the parsed header if it validates. */
  function DecodedHeader(buf: seq<byte>): (r: Result<FrameHeader>)
    ensures |buf| < HEADER_SIZE ==> r == Err(UnexpectedEof)
    ensures |buf| >= HEADER_SIZE && RawHeader(buf).Validate().Err? ==> r == Err(RawHeader(buf).Validate().error)
    ensures r.Ok? ==> r.value.Valid() && r.value == RawHeader(buf)
  {
    if |buf| < HEADER_SIZE then Err(UnexpectedEof)
    else
      var h := RawHeader(buf);
      var _ :- h.Validate();
      Ok(h)
  }

  // ---------------------------------------------------------------------------
  // Properties

  /** `validate` reports the first failing check, in the Rust code's order. */
  lemma ValidateOrder(h: FrameHeader)
    ensures h.magic != 0xFEED ==> h.Validate() == Err(InvalidMagic)
    ensures h.magic == 0xFEED && h.ver != 1 ==> h.Validate() == Err(UnsupportedVersion)
    ensures h.magic == 0xFEED && h.ver == 1 && h.flags & 0xF8 != 0 ==> h.Validate() == Err(FlagConflict)
    ensures h.magic == 0xFEED && h.ver == 1 && h.flags & 0xF8 == 0 && h.len > 16 * 1024 * 1024 - 20 ==>
      h.Validate() == Err(Overflow)
  {
  }

  /** A maximal body length (MAX_FRAME_SIZE itself) is rejected, one 20 below it is accepted. */
  lemma SizeBoundary()
    ensures NewHeader(0, 0, MAX_FRAME_SIZE).Validate() == Err(Overflow)
    ensures NewHeader(0, 0, MAX_FRAME_SIZE - 20).Validate() == Ok(())
    ensures NewHeader(0, 0, MAX_FRAME_SIZE - 19).Validate() == Err(Overflow)
  {
  }

  /** Clearing a flag leaves the bits outside it as they were; setting one keeps every bit already set. */
  lemma FlagBitsKept(h: FrameHeader, flag: bv8, other: bv8)
    ensures flag & other == 0 ==> h.ClearFlag(flag).flags & other == h.flags & other
    ensures flag & other == 0 ==> h.SetFlag(flag).flags & other == h.flags & other
    ensures h.HasFlag(other) ==> h.SetFlag(flag).HasFlag(other)
  {
  }

  /** Setting then clearing a flag leaves a header that had none of its bits as it was. */
  lemma SetThenClear(h: FrameHeader, flag: bv8)
    requires !h.HasFlag(flag)
    ensures h.SetFlag(flag).ClearFlag(flag) == h
  {
    assert (h.flags | flag) & !flag == h.flags;
  }

  /** The fields of the bytes `encode` writes read back unchanged. */
  lemma {:induction false} RawOfHeaderBytes(h: FrameHeader, rest: seq<byte>)
    ensures RawHeader(HeaderBytes(h) + rest) == h
  {
    var b := HeaderBytes(h) + rest;
    assert b[0..2] == LeBytes(h.magic, 2);
    assert b[4..6] == LeBytes(h.msgType, 2);
    assert b[6..10] == LeBytes(h.sequence, 4);
    assert b[10..14] == LeBytes(h.len, 4);
    assert Pow256(2) == 0x1_0000 && Pow256(4) == 0x1_0000_0000;
    LeValueOfLeBytes(h.magic, 2);
    LeValueOfLeBytes(h.msgType, 2);
    LeValueOfLeBytes(h.sequence, 4);
    LeValueOfLeBytes(h.len, 4);
  }

  /** Round trip: decoding what `encode` wrote gives the header back, or the error `validate` gives it. */
  lemma DecodeEncoded(h: FrameHeader, rest: seq<byte>)
    ensures h.Validate().Ok? ==> DecodedHeader(HeaderBytes(h) + rest) == Ok(h)
    ensures h.Validate().Err? ==> DecodedHeader(HeaderBytes(h) + rest) == Err(h.Validate().error)
  {
    RawOfHeaderBytes(h, rest);
  }

  /** Bytes 14 and 15 never affect decoding. */
  lemma DecodeIgnoresReserved(buf: seq<byte>, x: byte, y: byte)
    requires |buf| >= HEADER_SIZE
    ensures DecodedHeader(buf[..14] + [x, y] + buf[16..]) == DecodedHeader(buf)
  {
    var b := buf[..14] + [x, y] + buf[16..];
    assert b[0..2] == buf[0..2] && b[2] == buf[2] && b[3] == buf[3] && b[4..6] == buf[4..6];
    assert b[6..10] == buf[6..10] && b[10..14] == buf[10..14];
  }

  /** A decoded header encodes back to the bytes it came from, with the reserved bytes zeroed. */
  lemma {:induction false} EncodeDecoded(buf: seq<byte>)
    requires DecodedHeader(buf).Ok?
    ensures HeaderBytes(DecodedHeader(buf).value) == buf[..14] + [0, 0]
  {
    var h := RawHeader(buf);
    LeBytesOfLeValue(buf[0..2]);
    LeBytesOfLeValue(buf[4..6]);
    LeBytesOfLeValue(buf[6..10]);
    LeBytesOfLeValue(buf[10..14]);
    ByteAsBits(buf[3]);
    assert buf[..14] == buf[0..2] + [buf[2]] + [buf[3]] + buf[4..6] + buf[6..10] + buf[10..14];
  }
}
