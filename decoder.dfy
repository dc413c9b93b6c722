/**
 * The frame decoder: a read-only view of a buffer that holds one frame at
 * its start (header, CRC-32C check, body, whole frame), and the cursor that
 * reads body fields one after the other.
 */
module Decoder {
  import opened Errors
  import opened Bytes
  import opened Varint
  import opened Crc32c
  import opened Frame
  import opened Lib
  import opened Encoder

  /** The CRC stored in the last four bytes of a frame of the given total size, little-endian. */
  function StoredCrc(buf: seq<byte>, total: nat): (c: u32)
    requires TRAILER_SIZE <= total <= |buf|
    ensures LeBytes(c, 4) == buf[total - TRAILER_SIZE..total]
  {
    Pow256Widths();
    LeBytesOfLeValue(buf[total - TRAILER_SIZE..total]);
    LeValue(buf[total - TRAILER_SIZE..total])
  }

  /** `FrameDecoder`: borrows the buffer and never changes it. */
  datatype FrameDecoder = FrameDecoder(buf: seq<byte>)
  {
    /** `header`: `FrameHeader::decode` of the whole buffer, with no CRC check. */
    function Header(): (r: Result<FrameHeader>)
      ensures r.Ok? <==> |buf| >= HEADER_SIZE && RawHeader(buf).Valid()
      ensures r.Ok? ==> r.value == RawHeader(buf)
      ensures |buf| < HEADER_SIZE ==> r == Err(UnexpectedEof)
    {
      DecodedHeader(buf)
    }

    /**
     * The frame size the CRC check works with: the header's total size, or,
     * when the header does not validate, 16 + len + 4 with len read raw from
     * bytes 10..14, unless that len is out of bounds, in which case the
     * header's own error.
     */
    function CrcSize(): (r: Result<nat>)
      ensures r.Ok? ==> r.value >= HEADER_SIZE + TRAILER_SIZE
      ensures Header().Ok? ==> r == Ok(Header().value.TotalSize())
      ensures |buf| < HEADER_SIZE ==> r == Err(UnexpectedEof)
      ensures |buf| >= HEADER_SIZE && Header().Err? ==>
        r == if RawHeader(buf).len > MAX_BODY_LEN then Err(Header().error)
             else Ok(HEADER_SIZE + RawHeader(buf).len + TRAILER_SIZE)
    {
      match Header()
      case Ok(h) => Ok(h.TotalSize())
      case Err(e) =>
        if |buf| < HEADER_SIZE then Err(UnexpectedEof)
        else
          var len := RawHeader(buf).len;
          if len > MAX_FRAME_SIZE - HEADER_SIZE - 4 then Err(e)
          else Ok(HEADER_SIZE + len + TRAILER_SIZE)
    }

    /**
     * `verify_crc32c`: UnexpectedEof when the buffer is shorter than the
     * size CrcSize gives, CrcMismatch when the stored CRC differs from the
     * CRC-32C of everything before it, and otherwise the header's result.
     * So a bad header with a matching CRC still fails, with its own error.
     */
    function VerifyCrc32c(): (r: Result<()>)
      ensures r.Ok? <==>
        && Header().Ok? && |buf| >= Header().value.TotalSize()
        && ChecksumValue(buf[..Header().value.TotalSize() - TRAILER_SIZE]) == StoredCrc(buf, Header().value.TotalSize())
      ensures r.Err? ==> r.error in {UnexpectedEof, CrcMismatch} || (Header().Err? && r.error == Header().error)
      ensures |buf| < HEADER_SIZE ==> r == Err(UnexpectedEof)
      ensures |buf| >= HEADER_SIZE && Header().Err? && RawHeader(buf).len > MAX_BODY_LEN ==> r == Err(Header().error)
      ensures CrcSize().Ok? && |buf| < CrcSize().value ==> r == Err(UnexpectedEof)
      ensures CrcSize().Ok? && |buf| >= CrcSize().value ==>
        var total := CrcSize().value;
        if ChecksumValue(buf[..total - TRAILER_SIZE]) != StoredCrc(buf, total) then r == Err(CrcMismatch)
        else if Header().Err? then r == Err(Header().error)
        else r == Ok(())
    {
      var total :- CrcSize();
      if |buf| < total then Err(UnexpectedEof)
      else if ChecksumValue(buf[..total - TRAILER_SIZE]) != StoredCrc(buf, total) then Err(CrcMismatch)
      else
        match Header()
        case Err(e) => Err(e)
        case Ok(_) => Ok(())
    }

    /** What `body` returns a cursor over: the len bytes after the header. No CRC check. */
    function BodyBytes(): (r: Result<seq<byte>>)
      ensures Header().Err? ==> r == Err(Header().error)
      ensures Header().Ok? ==> (r.Ok? <==> |buf| >= HEADER_SIZE + Header().value.len)
      ensures Header().Ok? && r.Err? ==> r.error == UnexpectedEof
      ensures r.Ok? ==> r.value == buf[HEADER_SIZE..HEADER_SIZE + Header().value.len]
    {
      var header :- Header();
      var bodyEnd := HEADER_SIZE + header.len;
      if |buf| < bodyEnd then Err(UnexpectedEof) else Ok(buf[HEADER_SIZE..bodyEnd])
    }

    /** `body`: a fresh cursor at position 0 over BodyBytes. */
    method Body() returns (r: Result<BodyCursor>)
      ensures BodyBytes().Err? ==> r.Err? && r.error == BodyBytes().error
      ensures BodyBytes().Ok? ==>
        r.Ok? && fresh(r.value) && r.value.buf == BodyBytes().value && r.value.pos == 0
    {
      var bytes :- BodyBytes();
      var cursor := new BodyCursor.New(bytes);
      return Ok(cursor);
    }

    /** `frame_buffer`: header, body and trailer, once the header validates and the buffer holds them. */
    function FrameBuffer(): (r: Result<seq<byte>>)
      ensures Header().Err? ==> r == Err(Header().error)
      ensures Header().Ok? ==> (r.Ok? <==> |buf| >= Header().value.TotalSize())
      ensures Header().Ok? && r.Err? ==> r.error == UnexpectedEof
      ensures r.Ok? ==> |r.value| == Header().value.TotalSize() && r.value <= buf
    {
      var header :- Header();
      var total := header.TotalSize();
      if |buf| < total then Err(UnexpectedEof) else Ok(buf[..total])
    }
  }

  /** `BodyCursor`: a read position over the body bytes. */
  class BodyCursor {
    const buf: seq<byte>
    var pos: nat

    /** `BodyCursor { buf, pos: 0 }`. */
    constructor New(buf: seq<byte>)
      ensures this.buf == buf && pos == 0
      ensures Valid()
    {
      this.buf := buf;
      pos := 0;
    }

    /** The position is inside the buffer; every operation keeps it so. */
    predicate Valid()
      reads this
    {
      pos <= |buf|
    }

    /** `remaining`. */
    function Remaining(): (n: nat)
      reads this
      requires Valid()
      ensures pos + n == |buf|
    {
      |buf| - pos
    }

    /** `is_at_end`: nothing left to read. */
    function IsAtEnd(): (b: bool)
      reads this
      ensures Valid() ==> (b <==> Remaining() == 0)
    {
      pos >= |buf|
    }

    /** `peek_bytes`: the next n bytes, with the position left where it is. */
    function PeekBytes(n: nat): (r: Result<seq<byte>>)
      reads this
      ensures r.Ok? <==> pos + n <= |buf|
      ensures r.Ok? ==> |r.value| == n && r.value == buf[pos..pos + n]
      ensures r.Err? ==> r.error == UnexpectedEof
    {
      if pos + n > |buf| then Err(UnexpectedEof) else Ok(buf[pos..pos + n])
    }

    /** What every fixed-width read promises: n bytes consumed, or UnexpectedEof and nothing consumed. */
    twostate predicate Consumed(n: nat, ok: bool)
      reads this
    {
      && (old(pos) + n <= |buf| ==> ok && pos == old(pos) + n)
      && (old(pos) + n > |buf| ==> !ok && pos == old(pos))
    }

    /** `skip`. */
    method Skip(n: nat) returns (r: Result<()>)
      modifies this
      ensures Consumed(n, r.Ok?) && (r.Err? ==> r.error == UnexpectedEof)
    {
      if pos + n > |buf| {
        return Err(UnexpectedEof);
      }
      pos := pos + n;
      return Ok(());
    }

    /** `get_u8`. */
    method GetU8() returns (r: Result<byte>)
      modifies this
      ensures Consumed(1, r.Ok?) && (r.Err? ==> r.error == UnexpectedEof)
      ensures r.Ok? ==> r.value == buf[old(pos)]
    {
      if pos >= |buf| {
        return Err(UnexpectedEof);
      }
      var value := buf[pos];
      pos := pos + 1;
      return Ok(value);
    }

    /** `get_u16`: two bytes little-endian. */
    method GetU16() returns (r: Result<u16>)
      modifies this
      ensures Consumed(2, r.Ok?) && (r.Err? ==> r.error == UnexpectedEof)
      ensures r.Ok? ==> r.value == LeValue(buf[old(pos)..old(pos) + 2])
    {
      if pos + 2 > |buf| {
        return Err(UnexpectedEof);
      }
      Pow256Widths();
      var value := LeValue(buf[pos..pos + 2]);
      pos := pos + 2;
      return Ok(value);
    }

    /** `get_u32`: four bytes little-endian. */
    method GetU32() returns (r: Result<u32>)
      modifies this
      ensures Consumed(4, r.Ok?) && (r.Err? ==> r.error == UnexpectedEof)
      ensures r.Ok? ==> r.value == LeValue(buf[old(pos)..old(pos) + 4])
    {
      if pos + 4 > |buf| {
        return Err(UnexpectedEof);
      }
      Pow256Widths();
      var value := LeValue(buf[pos..pos + 4]);
      pos := pos + 4;
      return Ok(value);
    }

    /** `get_u64`: eight bytes little-endian. */
    method GetU64() returns (r: Result<u64>)
      modifies this
      ensures Consumed(8, r.Ok?) && (r.Err? ==> r.error == UnexpectedEof)
      ensures r.Ok? ==> r.value == LeValue(buf[old(pos)..old(pos) + 8])
    {
      if pos + 8 > |buf| {
        return Err(UnexpectedEof);
      }
      Pow256Widths();
      var value := LeValue(buf[pos..pos + 8]);
      pos := pos + 8;
      return Ok(value);
    }

    /** `get_i32`: a u32 reinterpreted as two's complement. */
    method GetI32() returns (r: Result<i32>)
      modifies this
      ensures Consumed(4, r.Ok?) && (r.Err? ==> r.error == UnexpectedEof)
      ensures r.Ok? ==> r.value == AsI32(LeValue(buf[old(pos)..old(pos) + 4]))
    {
      var bits :- GetU32();
      return Ok(AsI32(bits));
    }

    /** `get_i64`: a u64 reinterpreted as two's complement. */
    method GetI64() returns (r: Result<i64>)
      modifies this
      ensures Consumed(8, r.Ok?) && (r.Err? ==> r.error == UnexpectedEof)
      ensures r.Ok? ==> r.value == AsI64(LeValue(buf[old(pos)..old(pos) + 8]))
    {
      var bits :- GetU64();
      return Ok(AsI64(bits));
    }

    /** `get_bitmap`: the 16-bit presence bitmap. */
    method GetBitmap() returns (r: Result<u16>)
      modifies this
      ensures Consumed(2, r.Ok?) && (r.Err? ==> r.error == UnexpectedEof)
      ensures r.Ok? ==> r.value == LeValue(buf[old(pos)..old(pos) + 2])
    {
      r := GetU16();
    }

    /** `get_bytes`: the bytes PeekBytes shows, now consumed. */
    method GetBytes(n: nat) returns (r: Result<seq<byte>>)
      modifies this
      ensures r == old(PeekBytes(n))
      ensures Consumed(n, r.Ok?)
    {
      if pos + n > |buf| {
        return Err(UnexpectedEof);
      }
      var bytes := buf[pos..pos + n];
      pos := pos + n;
      return Ok(bytes);
    }

    /**
     * `get_varbytes`: a LEB128 u32 length, then that many bytes. Not atomic:
     * when the payload is short the position has already passed the length.
     */
    method GetVarbytes() returns (r: Result<seq<byte>>)
      requires Valid()
      modifies this
      ensures Valid()
      ensures var d := Decoded(buf[old(pos)..], 32);
        && (d.Err? ==> r == Err(d.error) && pos == old(pos))
        && (d.Ok? && old(pos) + d.value.1 + d.value.0 > |buf| ==>
              r == Err(UnexpectedEof) && pos == old(pos) + d.value.1)
        && (d.Ok? && old(pos) + d.value.1 + d.value.0 <= |buf| ==>
              r == Ok(buf[old(pos) + d.value.1..old(pos) + d.value.1 + d.value.0])
              && pos == old(pos) + d.value.1 + d.value.0)
    {
      var decoded :- DecodeU32(buf[pos..]);
      var len, size := decoded.0, decoded.1;
      pos := pos + size;
      if pos + len > |buf| {
        return Err(UnexpectedEof);
      }
      var bytes := buf[pos..pos + len];
      pos := pos + len;
      return Ok(bytes);
    }

    /** `get_varint_u32`. */
    method GetVarintU32() returns (r: Result<u32>)
      requires Valid()
      modifies this
      ensures Valid()
      ensures var d := Decoded(buf[old(pos)..], 32);
        && (d.Err? ==> r == Err(d.error) && pos == old(pos))
        && (d.Ok? ==> r == Ok(d.value.0) && pos == old(pos) + d.value.1)
    {
      var decoded :- DecodeU32(buf[pos..]);
      pos := pos + decoded.1;
      return Ok(decoded.0);
    }

    /** `get_varint_u64`. */
    method GetVarintU64() returns (r: Result<u64>)
      requires Valid()
      modifies this
      ensures Valid()
      ensures var d := Decoded(buf[old(pos)..], 64);
        && (d.Err? ==> r == Err(d.error) && pos == old(pos))
        && (d.Ok? ==> r == Ok(d.value.0) && pos == old(pos) + d.value.1)
    {
      var decoded :- DecodeU64(buf[pos..]);
      pos := pos + decoded.1;
      return Ok(decoded.0);
    }
  }

  /** Reading a w-byte little-endian field at pos: its value and the position after it, or UnexpectedEof. */
  function ReadLe(s: seq<byte>, pos: nat, w: nat): (r: Result<(nat, nat)>)
    ensures r.Ok? <==> pos + w <= |s|
    ensures r.Ok? ==> r.value.0 < Pow256(w) && r.value.1 == pos + w
    ensures r.Err? ==> r.error == UnexpectedEof
  {
    if pos + w > |s| then Err(UnexpectedEof) else Ok((LeValue(s[pos..pos + w]), pos + w))
  }

  /** Reading a varbytes field at pos as `get_varbytes` does: the bytes and the position after them. */
  function ReadVarbytes(s: seq<byte>, pos: nat): (r: Result<(seq<byte>, nat)>)
    requires pos <= |s|
    ensures r.Ok? ==> pos < r.value.1 <= |s| && |r.value.0| < r.value.1 - pos
    ensures r.Ok? ==> r.value.0 == s[r.value.1 - |r.value.0|..r.value.1]
  {
    var d :- Decoded(s[pos..], 32);
    DecodedConsumes(s[pos..], 32);
    var start := pos + d.1;
    if start + d.0 > |s| then Err(UnexpectedEof) else Ok((s[start..start + d.0], start + d.0))
  }

  /** A field written with LeBytes reads back as its value, whatever precedes and follows it. */
  lemma ReadLeOf(p: seq<byte>, v: nat, w: nat, rest: seq<byte>)
    requires v < Pow256(w)
    ensures ReadLe(p + LeBytes(v, w) + rest, |p|, w) == Ok((v, |p| + w))
  {
    var s := p + LeBytes(v, w) + rest;
    assert s[|p|..|p| + w] == LeBytes(v, w);
    LeValueOfLeBytes(v, w);
  }

  /** A varbytes field reads back as its bytes, whatever precedes and follows it. */
  lemma ReadVarbytesOf(p: seq<byte>, bytes: seq<byte>, rest: seq<byte>)
    requires |bytes| < 0x1_0000_0000
    ensures ReadVarbytes(p + Varbytes(bytes) + rest, |p|) == Ok((bytes, |p| + |Varbytes(bytes)|))
  {
    var n := |bytes| % 0x1_0000_0000;
    assert n == |bytes|;
    FieldParts(p, Leb128(n), bytes, rest);
    RoundTripU32(n, bytes + rest);
  }

  /** A two-part field between p and rest: what follows p, and where the second part sits. */
  lemma FieldParts(p: seq<byte>, a: seq<byte>, b: seq<byte>, rest: seq<byte>)
    ensures var s := p + (a + b) + rest;
      s[|p|..] == a + (b + rest) && s[|p| + |a|..|p| + |a| + |b|] == b
  {
    var s := p + (a + b) + rest;
    assert s[|p|..] == a + (b + rest);
  }

  /** Replacing a middle part by one of the same length leaves the parts around it. */
  lemma SpliceMiddle(a: seq<byte>, w: seq<byte>, w': seq<byte>, c: seq<byte>)
    requires |w| == |w'|
    ensures Splice(a + w + c, |a|, w') == a + w' + c
  {
    var l := Splice(a + w + c, |a|, w');
    assert l == l[..|a|] + l[|a|..|a| + |w'|] + l[|a| + |w'|..];
    assert (a + w + c)[..|a|] == a;
    assert (a + w + c)[|a| + |w|..] == c;
  }

  /** A header followed by more bytes, cut around its len field. */
  lemma HeaderParts(h: FrameHeader, rest: seq<byte>)
    ensures HeaderBytes(h) + rest
      == HeaderFront(h.magic, h.ver, h.flags, h.msgType, h.sequence) + LeBytes(h.len, 4) + ([0, 0] + rest)
  {
  }

  /** Writing the body length into a header that precedes its body gives the header with that length. */
  lemma PatchedHeader(h: FrameHeader, body: seq<byte>)
    requires |body| < 0x1_0000_0000
    ensures Splice(HeaderBytes(h) + body, LEN_OFFSET, LeBytes(|body| % 0x1_0000_0000, 4))
      == HeaderBytes(h.(len := |body|)) + body
  {
    var h' := h.(len := |body|);
    var front := HeaderFront(h.magic, h.ver, h.flags, h.msgType, h.sequence);
    HeaderParts(h, body);
    HeaderParts(h', body);
    ModSmall(|body|, 0x1_0000_0000);
    SpliceMiddle(front, LeBytes(h.len, 4), LeBytes(|body|, 4), [0, 0] + body);
  }

  /** A finished frame is the header with len set to the body length, the body, and the CRC of both. */
  lemma FinishedParts(h: FrameHeader, body: seq<byte>)
    requires |body| <= MAX_BODY_LEN
    ensures var patched := HeaderBytes(h.(len := |body|)) + body;
      Finished(HeaderBytes(h) + body) == patched + LeBytes(ChecksumValue(patched), 4)
  {
    PatchedHeader(h, body);
  }

  /** The decoder's view of a buffer that starts with the bytes of h: the header's result and the CRC window. */
  lemma HeaderSeen(h: FrameHeader, tail: seq<byte>)
    requires h.len <= MAX_BODY_LEN
    ensures var d := FrameDecoder(HeaderBytes(h) + tail);
      && d.CrcSize() == Ok(h.TotalSize())
      && (h.Valid() ==> d.Header() == Ok(h))
      && (!h.Valid() ==> d.Header() == Err(h.Validate().error))
  {
    DecodeEncoded(h, tail);
    RawOfHeaderBytes(h, tail);
  }

  /** Regrouping four parts. */
  lemma Assoc(a: seq<byte>, b: seq<byte>, c: seq<byte>, d: seq<byte>)
    ensures a + b + c + d == a + (b + c + d)
  {
  }

  /** Where the two leading parts of a concatenation sit in it. */
  lemma LeadingParts(a: seq<byte>, t: seq<byte>, rest: seq<byte>, buf: seq<byte>)
    requires buf == a + t + rest
    ensures buf[..|a|] == a && buf[|a|..|a| + |t|] == t
  {
  }

  /** A four-byte trailer after a: the bytes the CRC is computed over, and the CRC stored. */
  lemma TrailerWindow(a: seq<byte>, trailer: seq<byte>, rest: seq<byte>, buf: seq<byte>)
    requires |trailer| == TRAILER_SIZE && buf == a + trailer + rest
    ensures buf[..|a|] == a && StoredCrc(buf, |a| + TRAILER_SIZE) == LeValue(trailer)
  {
    LeadingParts(a, trailer, rest, buf);
  }

  /**
   * The CRC check once the frame size is known and the buffer holds the
   * frame, with a the bytes before the trailer and v the CRC stored in it:
   * CrcMismatch unless v is the CRC of a, and then the header's own result.
   */
  lemma CrcVerdict(d: FrameDecoder, total: nat, a: seq<byte>, v: nat)
    requires d.CrcSize() == Ok(total) && total <= |d.buf|
    requires d.buf[..total - TRAILER_SIZE] == a && StoredCrc(d.buf, total) == v
    ensures v != ChecksumValue(a) ==> d.VerifyCrc32c() == Err(CrcMismatch)
    ensures v == ChecksumValue(a) ==> d.VerifyCrc32c() == if d.Header().Ok? then Ok(()) else Err(d.Header().error)
  {
  }

  /**
   * What `finish_crc32c` produces decodes: for a header h and the body
   * written after it, the decoder sees h with len set to the body length,
   * the CRC check agrees with that header's validation (the CRC always
   * matches), and the body and the whole frame come back unchanged.
   */
  lemma DecodeFinished(h: FrameHeader, body: seq<byte>, rest: seq<byte>)
    requires |body| <= MAX_BODY_LEN
    ensures var h' := h.(len := |body|);
      var frame := Finished(HeaderBytes(h) + body);
      var d := FrameDecoder(frame + rest);
      && d.VerifyCrc32c() == h'.Validate()
      && (h'.Valid() ==> d.Header() == Ok(h') && d.BodyBytes() == Ok(body) && d.FrameBuffer() == Ok(frame))
      && (!h'.Valid() ==> d.Header() == Err(h'.Validate().error))
  {
    var h' := h.(len := |body|);
    var crc := ChecksumValue(HeaderBytes(h') + body);
    var trailer := LeBytes(crc, 4);
    FinishedParts(h, body);
    Assoc(HeaderBytes(h'), body, trailer, rest);
    HeaderSeen(h', body + trailer + rest);
    Pow256Widths();
    LeValueOfLeBytes(crc, 4);
    IntactCrc(h', body, trailer, rest);
    if h'.Valid() {
      FinishedBody(h', body, trailer, rest);
    }
  }

  /** The CRC check on a frame whose trailer holds the CRC of what precedes it gives the header's result. */
  lemma IntactCrc(h: FrameHeader, body: seq<byte>, trailer: seq<byte>, rest: seq<byte>)
    requires h.len == |body| <= MAX_BODY_LEN && |trailer| == TRAILER_SIZE
    requires LeValue(trailer) == ChecksumValue(HeaderBytes(h) + body)
    ensures FrameDecoder(HeaderBytes(h) + body + trailer + rest).VerifyCrc32c() == h.Validate()
  {
    var a := HeaderBytes(h) + body;
    var buf := a + trailer + rest;
    Assoc(HeaderBytes(h), body, trailer, rest);
    HeaderSeen(h, body + trailer + rest);
    TrailerWindow(a, trailer, rest, buf);
    CrcVerdict(FrameDecoder(buf), h.TotalSize(), a, LeValue(trailer));
  }

  /** A valid frame's body and whole frame come back as written. */
  lemma FinishedBody(h: FrameHeader, body: seq<byte>, trailer: seq<byte>, rest: seq<byte>)
    requires h.len == |body| <= MAX_BODY_LEN && |trailer| == TRAILER_SIZE && h.Valid()
    ensures var d := FrameDecoder(HeaderBytes(h) + body + trailer + rest);
      d.BodyBytes() == Ok(body) && d.FrameBuffer() == Ok(HeaderBytes(h) + body + trailer)
  {
    var buf := HeaderBytes(h) + body + trailer + rest;
    Assoc(HeaderBytes(h), body, trailer, rest);
    HeaderSeen(h, body + trailer + rest);
    FrameWindows(HeaderBytes(h), body, trailer, rest);
  }

  /** Where the body and the whole frame sit in a buffer holding header, body, trailer and more. */
  lemma FrameWindows(hb: seq<byte>, body: seq<byte>, trailer: seq<byte>, rest: seq<byte>)
    ensures var buf := hb + body + trailer + rest;
      buf[|hb|..|hb| + |body|] == body && buf[..|hb| + |body| + |trailer|] == hb + body + trailer
  {
    var buf := hb + body + trailer + rest;
    assert buf[..|hb| + |body| + |trailer|] == hb + body + trailer;
  }

  /**
   * Changing any byte of the CRC trailer of a finished frame makes the
   * check fail with CrcMismatch, whatever the header.
   */
  lemma CorruptTrailer(h: FrameHeader, body: seq<byte>, i: nat, x: byte, rest: seq<byte>)
    requires |body| <= MAX_BODY_LEN
    requires var n := |Finished(HeaderBytes(h) + body)|; n - TRAILER_SIZE <= i < n
    requires x != Finished(HeaderBytes(h) + body)[i]
    ensures FrameDecoder(Finished(HeaderBytes(h) + body)[i := x] + rest).VerifyCrc32c() == Err(CrcMismatch)
  {
    var h' := h.(len := |body|);
    var patched := HeaderBytes(h') + body;
    var trailer := LeBytes(ChecksumValue(patched), 4);
    FinishedParts(h, body);
    var k := i - |patched|;
    var trailer': seq<byte> := trailer[k := x];
    UpdateInLast(patched, trailer, i, x);
    Pow256Widths();
    LeValueOfLeBytes(ChecksumValue(patched), 4);
    LeValueInjective(trailer, trailer');
    CorruptFrame(h', body, trailer', rest);
  }

  /** Updating an index of the last part of a concatenation updates that part. */
  lemma UpdateInLast(a: seq<byte>, t: seq<byte>, i: nat, x: byte)
    requires |a| <= i < |a| + |t|
    ensures (a + t)[i := x] == a + t[i - |a| := x]
    ensures (a + t)[i] == t[i - |a|]
  {
  }

  /** A frame whose trailer does not hold the CRC of what precedes it fails the check. */
  lemma CorruptFrame(h: FrameHeader, body: seq<byte>, trailer: seq<byte>, rest: seq<byte>)
    requires h.len == |body| <= MAX_BODY_LEN && |trailer| == TRAILER_SIZE
    requires LeValue(trailer) != ChecksumValue(HeaderBytes(h) + body)
    ensures FrameDecoder(HeaderBytes(h) + body + trailer + rest).VerifyCrc32c() == Err(CrcMismatch)
  {
    var a := HeaderBytes(h) + body;
    var buf := a + trailer + rest;
    Assoc(HeaderBytes(h), body, trailer, rest);
    HeaderSeen(h, body + trailer + rest);
    TrailerWindow(a, trailer, rest, buf);
    CrcVerdict(FrameDecoder(buf), h.TotalSize(), a, LeValue(trailer));
  }
}
