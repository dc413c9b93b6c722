/**
 * What the two message schemas share: the message type numbers, the test of
 * one presence-bitmap bit, the encoding of an optional varbytes field, and
 * the bookkeeping that follows an encoder filling a buffer from offset 0.
 */
module Messages {
  import opened Errors
  import opened Bytes
  import opened Frame
  import opened Encoder
  import opened Decoder
  import opened Crc32c
  import opened Lib

  /** `msg_types::TRADE_V1`. */
  const TRADE_V1: u16 := 1

  /** `msg_types::QUOTE_V1`. */
  const QUOTE_V1: u16 := 2

  /** `bitmap & (1 << field) != 0` on the u16 bitmap read from a body: bit `field` of it is one. */
  predicate FieldSet(bitmap: u16, field: nat)
    requires field < 16
  {
    if field == 0 then bitmap % 2 == 1 else FieldSet(bitmap / 2, field - 1)
  }

  /**
   * The header an encoder starts from: `FrameHeader::new(msg_type, seq, 0)`,
   * with PRESENCE_BITMAP set when optional fields follow.
   */
  function MessageHeader(msgType: u16, sequence: u32, optional: bool): (h: FrameHeader)
    ensures h.HasFlag(PRESENCE_BITMAP) <==> optional
    ensures h.msgType == msgType && h.sequence == sequence && h.len == 0
    ensures h.magic == FRAME_MAGIC && h.ver == PROTOCOL_VERSION && h.flags & RESERVED == 0
  {
    var h := NewHeader(msgType, sequence, 0);
    if optional then h.SetFlag(PRESENCE_BITMAP) else h
  }

  /** An optional varbytes field as written: nothing when absent. */
  function OptionalBytes(field: Option<seq<byte>>): (r: seq<byte>)
    ensures field.None? <==> r == []
  {
    if field.Some? then Varbytes(field.value) else []
  }

  /** Reading an optional varbytes field at pos: read only when present says so. */
  function ReadOptional(s: seq<byte>, pos: nat, present: bool): (r: Result<(Option<seq<byte>>, nat)>)
    requires pos <= |s|
    ensures r.Ok? ==> pos <= r.value.1 <= |s| && (r.value.0.Some? <==> present)
    ensures !present ==> r == Ok((None, pos))
  {
    if !present then Ok((None, pos))
    else
      var field :- ReadVarbytes(s, pos);
      Ok((Some(field.0), field.1))
  }

  /** An optional field written with OptionalBytes reads back as itself. */
  lemma ReadOptionalOf(p: seq<byte>, field: Option<seq<byte>>, rest: seq<byte>)
    requires field.Some? ==> |field.value| < 0x1_0000_0000
    ensures ReadOptional(p + OptionalBytes(field) + rest, |p|, field.Some?)
      == Ok((field, |p| + |OptionalBytes(field)|))
  {
    if field.Some? {
      ReadVarbytesOf(p, field.value, rest);
    }
  }

  /**
   * What a run of `?`-chained writes promises: on success w written at the
   * old position and the position moved past it; on failure ShortBuffer,
   * because w did not fit.
   */
  twostate predicate Wrote(encoder: FrameEncoder, w: seq<byte>, new r: Result<()>)
    reads encoder, encoder.buf
  {
    && encoder.Valid()
    && encoder.headerStart == old(encoder.headerStart) && encoder.bodyStart == old(encoder.bodyStart)
    && (r.Ok? ==>
          && old(encoder.pos) + |w| <= encoder.buf.Length && encoder.pos == old(encoder.pos) + |w|
          && encoder.buf[..] == Splice(old(encoder.buf[..]), old(encoder.pos), w))
    && (r.Err? ==> r.error == ShortBuffer && old(encoder.pos) + |w| > encoder.buf.Length)
  }

  /** `if let Some(bytes) = field { put_varbytes(bytes)? }`. */
  method PutField(encoder: FrameEncoder, field: Option<seq<byte>>) returns (r: Result<()>)
    requires encoder.Valid()
    modifies encoder, encoder.buf
    ensures Wrote(encoder, OptionalBytes(field), r)
  {
    if field.Some? {
      r := encoder.PutVarbytes(field.value);
    } else {
      assert encoder.buf[..] == Splice(encoder.buf[..], encoder.pos, []);
      r := Ok(());
    }
  }

  /**
   * Writing written at the front of o, patching lb into it at the length
   * offset and then writing cb after it: the front is written patched,
   * followed by cb, and the rest is o.
   */
  lemma PatchThenAppend(o: seq<byte>, written: seq<byte>, lb: seq<byte>, patched: seq<byte>, cb: seq<byte>, out: seq<byte>)
    requires LEN_OFFSET + |lb| <= |written| && |written| + |cb| <= |o|
    requires patched == Splice(Splice(o, 0, written), LEN_OFFSET, lb)
    requires out == Splice(patched, |written|, cb)
    ensures patched[0..|written|] == Splice(written, LEN_OFFSET, lb)
    ensures out[..|written| + |cb|] == patched[0..|written|] + cb
    ensures out[|written| + |cb|..] == o[|written| + |cb|..]
  {
    var b := Splice(o, 0, written);
    assert b[0..|written|] == written;
    SpliceWindow(b, 0, |written|, LEN_OFFSET, lb);
    SpliceTail(o, 0, written, |written| + |cb|);
    SpliceTail(b, LEN_OFFSET, lb, |written| + |cb|);
    SpliceFront(patched, |written|, cb, out, patched[0..|written|]);
  }

  /** Finished is the patched bytes followed by their CRC. */
  lemma FinishedOf(written: seq<byte>, front: seq<byte>)
    requires HEADER_SIZE <= |written|
    requires front == Splice(written, LEN_OFFSET, LeBytes((|written| - HEADER_SIZE) % 0x1_0000_0000, 4))
    ensures Finished(written) == front + LeBytes(ChecksumValue(front), 4)
  {
  }

  /**
   * An encoder that began its frame at offset 0 of a buffer that held o and
   * has since written `written`, header first.
   */
  predicate Filled(encoder: FrameEncoder, o: seq<byte>, written: seq<byte>)
    reads encoder, encoder.buf
  {
    && encoder.Valid() && encoder.headerStart == 0 && encoder.bodyStart == HEADER_SIZE
    && encoder.pos == |written| && |o| == encoder.buf.Length
    && encoder.buf[..] == Splice(o, 0, written)
  }

  /** `FrameEncoder::new(buf)` then `begin(&header)?`: the header written at offset 0. */
  method Start(buf: array<byte>, header: FrameHeader) returns (encoder: FrameEncoder, r: Result<()>)
    modifies buf
    ensures fresh(encoder) && encoder.buf == buf
    ensures buf.Length < HEADER_SIZE ==> r == Err(ShortBuffer)
    ensures buf.Length >= HEADER_SIZE ==> r == Ok(()) && Filled(encoder, old(buf[..]), HeaderBytes(header))
  {
    encoder := new FrameEncoder.New(buf);
    r := encoder.Begin(header);
  }

  /**
   * `encoder.finish_crc32c()` at the end of a message's `encode`: frame, the
   * written bytes finished, at the front of the buffer and its size, with
   * the rest of the buffer as it was; or ShortBuffer when it does not fit.
   */
  method Finish(encoder: FrameEncoder, ghost o: seq<byte>, ghost written: seq<byte>, ghost frame: seq<byte>)
    returns (r: Result<nat>)
    requires Filled(encoder, o, written) && frame == Finished(written)
    modifies encoder, encoder.buf
    ensures |frame| <= |o| ==>
      r == Ok(|frame|) && encoder.buf[..|frame|] == frame && encoder.buf[|frame|..] == o[|frame|..]
    ensures |frame| > |o| ==> r == Err(ShortBuffer)
  {
    ghost var n := |written|;
    ghost var patched := Splice(encoder.buf[..], encoder.headerStart + LEN_OFFSET,
                                LeBytes((encoder.pos - encoder.bodyStart) % 0x1_0000_0000, 4));
    assert patched == Splice(Splice(o, 0, written), LEN_OFFSET, LeBytes((n - HEADER_SIZE) % 0x1_0000_0000, 4));
    r := encoder.FinishCrc32c();
    if r.Ok? {
      ghost var out := encoder.buf[..];
      ghost var front := patched[0..n];
      assert out == Splice(patched, n, LeBytes(ChecksumValue(front), 4));
      PatchThenAppend(o, written, LeBytes((n - HEADER_SIZE) % 0x1_0000_0000, 4), patched, LeBytes(ChecksumValue(front), 4), out);
      FinishedOf(written, front);
    }
  }

  /** `body.get_varbytes()?` when present says the field is there, as ReadOptional reads it. */
  method GetOptional(body: BodyCursor, present: bool) returns (r: Result<Option<seq<byte>>>)
    requires body.Valid()
    modifies body
    ensures body.Valid()
    ensures var e := ReadOptional(body.buf, old(body.pos), present);
      && (e.Err? ==> r == Err(e.error))
      && (e.Ok? ==> r == Ok(e.value.0) && body.pos == e.value.1)
  {
    if !present {
      return Ok(None);
    }
    var bytes := body.GetVarbytes();
    if bytes.Err? {
      return Err(bytes.error);
    }
    return Ok(Some(bytes.value));
  }
}

/** `trade`: timestamp, price and quantity, then an optional symbol and note. */
module Trade {
  import opened Errors
  import opened Bytes
  import opened Frame
  import opened Encoder
  import opened Decoder
  import opened Messages

  /** `fields::SYMBOL`: bitmap bit of the symbol. */
  const SYMBOL: nat := 0

  /** `fields::NOTE`: bitmap bit of the note. */
  const NOTE: nat := 1

  /** What `decode` returns: the header and the five fields. */
  datatype Fields = Fields(header: FrameHeader, ts: u64, price: i64, qty: u32,
                           symbol: Option<seq<byte>>, note: Option<seq<byte>>)

  /** The bitmap `encode` writes: bit 0 for a symbol, bit 1 for a note. */
  function Bitmap(symbol: Option<seq<byte>>, note: Option<seq<byte>>): (b: u16)
    ensures FieldSet(b, SYMBOL) <==> symbol.Some?
    ensures FieldSet(b, NOTE) <==> note.Some?
    ensures b < 4
  {
    // the two bits are distinct, so `|=` of each adds it
    (if symbol.Some? then 1 else 0) + (if note.Some? then 2 else 0)
  }

  /** The fixed fields `encode` writes first: ts, price, qty. */
  function FixedPart(ts: u64, price: i64, qty: u32): (b: seq<byte>)
    ensures |b| == 20
  {
    LeBytes(ts, 8) + LeBytes(I64Bits(price), 8) + LeBytes(qty, 4)
  }

  /** What follows them: nothing, or the bitmap and the fields it marks, symbol before note. */
  function OptionalPart(symbol: Option<seq<byte>>, note: Option<seq<byte>>): (b: seq<byte>)
    ensures b == [] <==> symbol.None? && note.None?
  {
    if symbol.Some? || note.Some? then LeBytes(Bitmap(symbol, note), 2) + OptionalBytes(symbol) + OptionalBytes(note)
    else []
  }

  /** The body `encode` writes after the header. */
  function Body(ts: u64, price: i64, qty: u32, symbol: Option<seq<byte>>, note: Option<seq<byte>>): (b: seq<byte>)
    ensures |b| == 20 + if symbol.Some? || note.Some? then 2 + |OptionalBytes(symbol)| + |OptionalBytes(note)| else 0
  {
    FixedPart(ts, price, qty) + OptionalPart(symbol, note)
  }

  /** The whole frame `encode` produces. */
  function EncodedFrame(sequence: u32, ts: u64, price: i64, qty: u32,
                        symbol: Option<seq<byte>>, note: Option<seq<byte>>): (f: seq<byte>)
    ensures |f| == HEADER_SIZE + |Body(ts, price, qty, symbol, note)| + TRAILER_SIZE
  {
    Finished(HeaderBytes(MessageHeader(TRADE_V1, sequence, symbol.Some? || note.Some?))
      + Body(ts, price, qty, symbol, note))
  }

  /**
   * `trade::encode`: the frame at the front of buf and its size, or
   * ShortBuffer when buf is too small for it. Bytes past the frame are
   * left alone.
   */
  method Encode(buf: array<byte>, sequence: u32, ts: u64, price: i64, qty: u32,
                symbol: Option<seq<byte>>, note: Option<seq<byte>>) returns (r: Result<nat>)
    modifies buf
    ensures var frame := EncodedFrame(sequence, ts, price, qty, symbol, note);
      && (|frame| <= buf.Length ==> r == Ok(|frame|) && buf[..|frame|] == frame && buf[|frame|..] == old(buf[|frame|..]))
      && (|frame| > buf.Length ==> r == Err(ShortBuffer))
  {
    ghost var o := buf[..];
    var header := NewHeader(TRADE_V1, sequence, 0);
    if symbol.Some? || note.Some? {
      header := header.SetFlag(PRESENCE_BITMAP);
    }
    ghost var h, body := HeaderBytes(header), Body(ts, price, qty, symbol, note);
    ghost var frame := EncodedFrame(sequence, ts, price, qty, symbol, note);
    FrameOf(header, sequence, ts, price, qty, symbol, note);
    assert |frame| == |h| + |body| + TRAILER_SIZE;
    var encoder, step := Start(buf, header);
    if step.Err? {
      return Err(step.error);
    }
    step := PutBody(encoder, ts, price, qty, symbol, note, o, h);
    if step.Err? {
      return Err(step.error);
    }
    r := Finish(encoder, o, h + body, frame);
  }

  /** The frame is the header `encode` builds and the body, finished. */
  lemma FrameOf(header: FrameHeader, sequence: u32, ts: u64, price: i64, qty: u32,
                symbol: Option<seq<byte>>, note: Option<seq<byte>>)
    requires header == if symbol.Some? || note.Some? then NewHeader(TRADE_V1, sequence, 0).SetFlag(PRESENCE_BITMAP)
                       else NewHeader(TRADE_V1, sequence, 0)
    ensures EncodedFrame(sequence, ts, price, qty, symbol, note) == Finished(HeaderBytes(header) + Body(ts, price, qty, symbol, note))
  {
  }

  /** Everything `encode` writes between `begin` and `finish_crc32c`, each write with `?`. */
  method PutBody(encoder: FrameEncoder, ts: u64, price: i64, qty: u32,
                 symbol: Option<seq<byte>>, note: Option<seq<byte>>, ghost o: seq<byte>, ghost written: seq<byte>)
    returns (r: Result<()>)
    requires Filled(encoder, o, written)
    modifies encoder, encoder.buf
    ensures Wrote(encoder, Body(ts, price, qty, symbol, note), r)
    ensures r.Ok? ==> Filled(encoder, o, written + Body(ts, price, qty, symbol, note))
  {
    ghost var o', at := encoder.buf[..], encoder.pos;
    ghost var fixed, opt := FixedPart(ts, price, qty), OptionalPart(symbol, note);
    r := PutFixed(encoder, ts, price, qty);
    if r.Err? {
      return;
    }
    r := PutOptional(encoder, symbol, note);
    if r.Err? {
      return;
    }
    SpliceSplice(o', at, fixed, opt);
    SpliceSplice(o, 0, written, fixed + opt);
  }

  /** The fixed fields, each with `?`. */
  method PutFixed(encoder: FrameEncoder, ts: u64, price: i64, qty: u32) returns (r: Result<()>)
    requires encoder.Valid()
    modifies encoder, encoder.buf
    ensures Wrote(encoder, FixedPart(ts, price, qty), r)
  {
    ghost var o, at := encoder.buf[..], encoder.pos;
    ghost var a, b, c := LeBytes(ts, 8), LeBytes(I64Bits(price), 8), LeBytes(qty, 4);
    r := encoder.PutU64(ts);
    if r.Err? {
      return;
    }
    r := encoder.PutI64(price);
    if r.Err? {
      return;
    }
    SpliceSplice(o, at, a, b);
    r := encoder.PutU32(qty);
    if r.Err? {
      return;
    }
    SpliceSplice(o, at, a + b, c);
  }

  /** The bitmap and the optional fields, each with `?`, when any is present. */
  method PutOptional(encoder: FrameEncoder, symbol: Option<seq<byte>>, note: Option<seq<byte>>) returns (r: Result<()>)
    requires encoder.Valid()
    modifies encoder, encoder.buf
    ensures Wrote(encoder, OptionalPart(symbol, note), r)
  {
    if symbol.None? && note.None? {
      assert OptionalPart(symbol, note) == [];
      assert encoder.buf[..] == Splice(encoder.buf[..], encoder.pos, []);
      return Ok(());
    }
    ghost var o, at := encoder.buf[..], encoder.pos;
    var bitmap := 0;
    if symbol.Some? {
      bitmap := bitmap + 1;
    }
    if note.Some? {
      bitmap := bitmap + 2;
    }
    assert bitmap == Bitmap(symbol, note);
    ghost var bits, fields := LeBytes(bitmap, 2), OptionalBytes(symbol) + OptionalBytes(note);
    OptionalPartIs(symbol, note);
    r := encoder.PutBitmap(bitmap);
    if r.Err? {
      return;
    }
    r := PutFields(encoder, symbol, note);
    if r.Err? {
      return;
    }
    SpliceSplice(o, at, bits, fields);
  }

  /** With any field present, the optional part is the bitmap, then the fields. */
  lemma OptionalPartIs(symbol: Option<seq<byte>>, note: Option<seq<byte>>)
    requires symbol.Some? || note.Some?
    ensures OptionalPart(symbol, note) == LeBytes(Bitmap(symbol, note), 2) + (OptionalBytes(symbol) + OptionalBytes(note))
  {
  }

  /** The optional fields present, symbol before note, each with `?`. */
  method PutFields(encoder: FrameEncoder, symbol: Option<seq<byte>>, note: Option<seq<byte>>) returns (r: Result<()>)
    requires encoder.Valid()
    modifies encoder, encoder.buf
    ensures Wrote(encoder, OptionalBytes(symbol) + OptionalBytes(note), r)
  {
    ghost var o, at := encoder.buf[..], encoder.pos;
    ghost var sym, nt := OptionalBytes(symbol), OptionalBytes(note);
    r := PutField(encoder, symbol);
    if r.Err? {
      return;
    }
    ghost var mid := encoder.buf[..];
    r := PutField(encoder, note);
    if r.Err? {
      return;
    }
    SpliceSplice(o, at, sym, nt);
  }

  /**
   * The fixed fields as `get_u64`, `get_i64` and `get_u32` read them from
   * the start of a body: bytes 0-8, 8-16 and 16-20, or UnexpectedEof from
   * the first read that runs out, which happens exactly when there are
   * fewer than 20 bytes.
   */
  function ParsedFixed(body: seq<byte>): (r: Result<(u64, i64, u32)>)
    ensures r.Ok? <==> |body| >= 20
    ensures r.Err? ==> r.error == UnexpectedEof
  {
    if |body| < 20 then Err(UnexpectedEof)
    else
      Pow256Widths();
      Ok((LeValue(body[0..8]), AsI64(LeValue(body[8..16])), LeValue(body[16..20])))
  }

  /** The optional fields read from pos on: nothing without the flag, else the bitmap and the fields it marks. */
  function ParsedOptionals(present: bool, body: seq<byte>, pos: nat): (r: Result<(Option<seq<byte>>, Option<seq<byte>>)>)
    requires pos <= |body|
    ensures !present ==> r == Ok((None, None))
    ensures present && pos + 2 > |body| ==> r == Err(UnexpectedEof)
  {
    if !present then Ok((None, None))
    else
      var bitmap :- ReadLe(body, pos, 2);
      Pow256Widths();
      var symbol :- ReadOptional(body, bitmap.1, FieldSet(bitmap.0, SYMBOL));
      var note :- ReadOptional(body, symbol.1, FieldSet(bitmap.0, NOTE));
      Ok((symbol.0, note.0))
  }

  /**
   * With the flag set, the two bytes at pos are the presence bitmap: the
   * symbol is there exactly when bit 0 is set and the note exactly when bit 1 is.
   */
  lemma ParsedOptionalsBits(body: seq<byte>, pos: nat)
    requires pos + 2 <= |body|
    ensures var r := ParsedOptionals(true, body, pos);
      var b := LeValue(body[pos..pos + 2]);
      r.Ok? ==> b < 0x1_0000 && (r.value.0.Some? <==> FieldSet(b, SYMBOL)) && (r.value.1.Some? <==> FieldSet(b, NOTE))
  {
  }

  /** The fields of a trade body, read as `decode` reads them once the frame has checked out. */
  function ParsedBody(header: FrameHeader, body: seq<byte>): (r: Result<Fields>)
    ensures r.Ok? ==> r.value.header == header
    ensures r.Ok? && !header.HasFlag(PRESENCE_BITMAP) ==> r.value.symbol.None? && r.value.note.None?
    ensures |body| < 20 ==> r == Err(UnexpectedEof)
  {
    var fixed :- ParsedFixed(body);
    var optional :- ParsedOptionals(header.HasFlag(PRESENCE_BITMAP), body, 20);
    Ok(Fields(header, fixed.0, fixed.1, fixed.2, optional.0, optional.1))
  }

  /**
   * What `trade::decode` returns: the header's error first, then
   * UnsupportedMsgType, then the CRC check's error, then the body's.
   */
  function DecodedFields(buf: seq<byte>): (r: Result<Fields>)
    ensures var d := FrameDecoder(buf);
      && (d.Header().Err? ==> r == Err(d.Header().error))
      && (d.Header().Ok? && d.Header().value.msgType != TRADE_V1 ==> r == Err(UnsupportedMsgType))
      && (d.Header().Ok? && d.Header().value.msgType == TRADE_V1 && d.VerifyCrc32c().Err? ==>
            r == Err(d.VerifyCrc32c().error))
      && (r.Ok? ==> d.VerifyCrc32c().Ok? && r.value.header == d.Header().value && r.value.header.msgType == TRADE_V1)
  {
    var d := FrameDecoder(buf);
    var header :- d.Header();
    if header.msgType != TRADE_V1 then Err(UnsupportedMsgType)
    else
      var ok :- d.VerifyCrc32c();
      // `body()?`: cannot fail once the CRC check has passed
      match d.BodyBytes()
      case Err(e) => Err(e)
      case Ok(body) => ParsedBody(header, body)
  }

  /** `get_u64()?`, `get_i64()?`, `get_u32()?` on a cursor at the start of the body. */
  method ReadFixed(body: BodyCursor) returns (r: Result<(u64, i64, u32)>)
    requires body.pos == 0
    modifies body
    ensures r == ParsedFixed(body.buf)
    ensures r.Ok? ==> body.pos == 20 && body.Valid()
  {
    Pow256Widths();
    var ts := body.GetU64();
    if ts.Err? {
      return Err(ts.error);
    }
    var price := body.GetI64();
    if price.Err? {
      return Err(price.error);
    }
    var qty := body.GetU32();
    if qty.Err? {
      return Err(qty.error);
    }
    return Ok((ts.value, price.value, qty.value));
  }

  /** The optional half of `decode`: the bitmap, then each field it marks. */
  method ReadOptionals(body: BodyCursor, present: bool) returns (r: Result<(Option<seq<byte>>, Option<seq<byte>>)>)
    requires body.Valid()
    modifies body
    ensures r == ParsedOptionals(present, body.buf, old(body.pos))
  {
    if !present {
      return Ok((None, None));
    }
    var bitmap := body.GetBitmap();
    if bitmap.Err? {
      return Err(bitmap.error);
    }
    var symbol := GetOptional(body, FieldSet(bitmap.value, SYMBOL));
    if symbol.Err? {
      return Err(symbol.error);
    }
    var note := GetOptional(body, FieldSet(bitmap.value, NOTE));
    if note.Err? {
      return Err(note.error);
    }
    return Ok((symbol.value, note.value));
  }

  /** The body half of `trade::decode`, on a cursor at the start of the body. */
  method ReadFields(header: FrameHeader, body: BodyCursor) returns (r: Result<Fields>)
    requires body.pos == 0
    modifies body
    ensures r == ParsedBody(header, body.buf)
  {
    var fixed := ReadFixed(body);
    if fixed.Err? {
      return Err(fixed.error);
    }
    var optional := ReadOptionals(body, header.HasFlag(PRESENCE_BITMAP));
    if optional.Err? {
      return Err(optional.error);
    }
    return Ok(Fields(header, fixed.value.0, fixed.value.1, fixed.value.2, optional.value.0, optional.value.1));
  }

  /** `trade::decode`. */
  method Decode(buf: seq<byte>) returns (r: Result<Fields>)
    ensures r == DecodedFields(buf)
  {
    var decoder := FrameDecoder(buf);
    var header :- decoder.Header();
    if header.msgType != TRADE_V1 {
      return Err(UnsupportedMsgType);
    }
    var ok :- decoder.VerifyCrc32c();
    // `body()?`: cannot fail once the CRC check has passed
    var cursor := decoder.Body();
    match cursor
    case Err(e) =>
      return Err(e);
    case Ok(body) =>
      r := ReadFields(header, body);
  }

  /** The fixed fields read back as written, whatever follows them. */
  lemma FixedRoundTrip(ts: u64, price: i64, qty: u32, rest: seq<byte>)
    ensures ParsedFixed(FixedPart(ts, price, qty) + rest) == Ok((ts, price, qty))
  {
    var a, b, c := LeBytes(ts, 8), LeBytes(I64Bits(price), 8), LeBytes(qty, 4);
    ThreeParts(a, b, c, rest);
    Pow256Widths();
    LeValueOfLeBytes(ts, 8);
    LeValueOfLeBytes(I64Bits(price), 8);
    LeValueOfLeBytes(qty, 4);
    I64BitsRoundTrip(price);
  }

  /** Where each of three parts of known widths sits in their concatenation. */
  lemma ThreeParts(a: seq<byte>, b: seq<byte>, c: seq<byte>, rest: seq<byte>)
    requires |a| == 8 && |b| == 8 && |c| == 4
    ensures var s := a + b + c + rest; s[0..8] == a && s[8..16] == b && s[16..20] == c
  {
  }

  /** The optional part reads back as written, whatever precedes and follows it. */
  lemma OptionalRoundTrip(p: seq<byte>, symbol: Option<seq<byte>>, note: Option<seq<byte>>, rest: seq<byte>)
    requires symbol.Some? ==> |symbol.value| < 0x1_0000_0000
    requires note.Some? ==> |note.value| < 0x1_0000_0000
    ensures ParsedOptionals(symbol.Some? || note.Some?, p + OptionalPart(symbol, note) + rest, |p|) == Ok((symbol, note))
  {
    if symbol.Some? || note.Some? {
      var bits, sym, nt := LeBytes(Bitmap(symbol, note), 2), OptionalBytes(symbol), OptionalBytes(note);
      Regroup(p, bits, sym, nt, rest);
      Pow256Widths();
      ReadLeOf(p, Bitmap(symbol, note), 2, sym + nt + rest);
      ReadOptionalOf(p + bits, symbol, nt + rest);
      ReadOptionalOf(p + bits + sym, note, rest);
    }
  }

  /** The groupings of a prefix, three parts and a suffix that reading them one by one needs. */
  lemma Regroup(p: seq<byte>, a: seq<byte>, b: seq<byte>, c: seq<byte>, rest: seq<byte>)
    ensures p + (a + b + c) + rest == p + a + (b + c + rest)
    ensures p + (a + b + c) + rest == p + a + b + (c + rest)
    ensures p + (a + b + c) + rest == p + a + b + c + rest
  {
  }

  /** A trade body reads back as the fields it was written from. */
  lemma {:induction false} BodyRoundTrip(header: FrameHeader, ts: u64, price: i64, qty: u32,
                                         symbol: Option<seq<byte>>, note: Option<seq<byte>>)
    requires header.HasFlag(PRESENCE_BITMAP) <==> symbol.Some? || note.Some?
    requires |Body(ts, price, qty, symbol, note)| <= MAX_BODY_LEN
    ensures ParsedBody(header, Body(ts, price, qty, symbol, note)) == Ok(Fields(header, ts, price, qty, symbol, note))
  {
    FixedRoundTrip(ts, price, qty, OptionalPart(symbol, note));
    OptionalRoundTrip(FixedPart(ts, price, qty), symbol, note, []);
    assert FixedPart(ts, price, qty) + OptionalPart(symbol, note) + [] == Body(ts, price, qty, symbol, note);
  }

  /**
   * Round trip: decoding what `encode` produced, with anything after it,
   * gives the same fields under the encoder's header with len set to the
   * body length.
   */
  lemma RoundTrip(sequence: u32, ts: u64, price: i64, qty: u32,
                  symbol: Option<seq<byte>>, note: Option<seq<byte>>, rest: seq<byte>)
    requires |Body(ts, price, qty, symbol, note)| <= MAX_BODY_LEN
    ensures var h := MessageHeader(TRADE_V1, sequence, symbol.Some? || note.Some?);
      DecodedFields(EncodedFrame(sequence, ts, price, qty, symbol, note) + rest)
        == Ok(Fields(h.(len := |Body(ts, price, qty, symbol, note)|), ts, price, qty, symbol, note))
  {
    var h := MessageHeader(TRADE_V1, sequence, symbol.Some? || note.Some?);
    var body := Body(ts, price, qty, symbol, note);
    var h' := h.(len := |body|);
    DecodeFinished(h, body, rest);
    assert h'.Valid();
    assert h'.HasFlag(PRESENCE_BITMAP) == h.HasFlag(PRESENCE_BITMAP);
    BodyRoundTrip(h', ts, price, qty, symbol, note);
  }

  /** A trade without optional fields is a 40-byte frame; optional fields only add to it. */
  lemma FrameSize(sequence: u32, ts: u64, price: i64, qty: u32,
                  symbol: Option<seq<byte>>, note: Option<seq<byte>>)
    ensures |EncodedFrame(sequence, ts, price, qty, None, None)| == 40
    ensures |EncodedFrame(sequence, ts, price, qty, symbol, note)| >= 40
    ensures symbol.Some? ==> |EncodedFrame(sequence, ts, price, qty, symbol, note)| > 42
  {
  }
}

/** `quote`: timestamp, bid, ask and book level, then an optional symbol. */
module Quote {
  import opened Errors
  import opened Bytes
  import opened Frame
  import opened Encoder
  import opened Decoder
  import opened Messages
  import Trade

  /** `fields::SYMBOL`: bitmap bit of the symbol. */
  const SYMBOL: nat := 0

  /** The bitmap `encode` writes when the symbol is present: `1 << SYMBOL`. */
  const SYMBOL_BITMAP: u16 := 1

  /** What `decode` returns: the header and the five fields. */
  datatype Fields = Fields(header: FrameHeader, ts: u64, bid: i64, ask: i64, level: byte,
                           symbol: Option<seq<byte>>)

  /** The fixed fields `encode` writes first: ts, bid, ask, level. */
  function FixedPart(ts: u64, bid: i64, ask: i64, level: byte): (b: seq<byte>)
    ensures |b| == 25
  {
    Words(ts, bid, ask) + [level]
  }

  /** The three 8-byte fields among them. */
  function Words(ts: u64, bid: i64, ask: i64): (b: seq<byte>)
    ensures |b| == 24
  {
    LeBytes(ts, 8) + LeBytes(I64Bits(bid), 8) + LeBytes(I64Bits(ask), 8)
  }

  /** What follows them: nothing, or the bitmap with only the symbol's bit and the symbol. */
  function OptionalPart(symbol: Option<seq<byte>>): (b: seq<byte>)
    ensures b == [] <==> symbol.None?
  {
    if symbol.Some? then LeBytes(SYMBOL_BITMAP, 2) + OptionalBytes(symbol) else []
  }

  /** The body `encode` writes after the header. */
  function Body(ts: u64, bid: i64, ask: i64, level: byte, symbol: Option<seq<byte>>): (b: seq<byte>)
    ensures |b| == 25 + if symbol.Some? then 2 + |OptionalBytes(symbol)| else 0
  {
    FixedPart(ts, bid, ask, level) + OptionalPart(symbol)
  }

  /** The whole frame `encode` produces. */
  function EncodedFrame(sequence: u32, ts: u64, bid: i64, ask: i64, level: byte,
                        symbol: Option<seq<byte>>): (f: seq<byte>)
    ensures |f| == HEADER_SIZE + |Body(ts, bid, ask, level, symbol)| + TRAILER_SIZE
  {
    Finished(HeaderBytes(MessageHeader(QUOTE_V1, sequence, symbol.Some?)) + Body(ts, bid, ask, level, symbol))
  }

  /**
   * `quote::encode`: the frame at the front of buf and its size, or
   * ShortBuffer when buf is too small for it. Bytes past the frame are
   * left alone.
   */
  method Encode(buf: array<byte>, sequence: u32, ts: u64, bid: i64, ask: i64, level: byte,
                symbol: Option<seq<byte>>) returns (r: Result<nat>)
    modifies buf
    ensures var frame := EncodedFrame(sequence, ts, bid, ask, level, symbol);
      && (|frame| <= buf.Length ==> r == Ok(|frame|) && buf[..|frame|] == frame && buf[|frame|..] == old(buf[|frame|..]))
      && (|frame| > buf.Length ==> r == Err(ShortBuffer))
  {
    ghost var o := buf[..];
    var header := NewHeader(QUOTE_V1, sequence, 0);
    if symbol.Some? {
      header := header.SetFlag(PRESENCE_BITMAP);
    }
    ghost var h, body := HeaderBytes(header), Body(ts, bid, ask, level, symbol);
    ghost var frame := EncodedFrame(sequence, ts, bid, ask, level, symbol);
    FrameOf(header, sequence, ts, bid, ask, level, symbol);
    assert |frame| == |h| + |body| + TRAILER_SIZE;
    var encoder, step := Start(buf, header);
    if step.Err? {
      return Err(step.error);
    }
    step := PutBody(encoder, ts, bid, ask, level, symbol, o, h);
    if step.Err? {
      return Err(step.error);
    }
    r := Finish(encoder, o, h + body, frame);
  }

  /** The frame is the header `encode` builds and the body, finished. */
  lemma FrameOf(header: FrameHeader, sequence: u32, ts: u64, bid: i64, ask: i64, level: byte,
                symbol: Option<seq<byte>>)
    requires header == if symbol.Some? then NewHeader(QUOTE_V1, sequence, 0).SetFlag(PRESENCE_BITMAP)
                       else NewHeader(QUOTE_V1, sequence, 0)
    ensures EncodedFrame(sequence, ts, bid, ask, level, symbol) == Finished(HeaderBytes(header) + Body(ts, bid, ask, level, symbol))
  {
  }

  /** Everything `encode` writes between `begin` and `finish_crc32c`, each write with `?`. */
  method PutBody(encoder: FrameEncoder, ts: u64, bid: i64, ask: i64, level: byte,
                 symbol: Option<seq<byte>>, ghost o: seq<byte>, ghost written: seq<byte>)
    returns (r: Result<()>)
    requires Filled(encoder, o, written)
    modifies encoder, encoder.buf
    ensures Wrote(encoder, Body(ts, bid, ask, level, symbol), r)
    ensures r.Ok? ==> Filled(encoder, o, written + Body(ts, bid, ask, level, symbol))
  {
    ghost var o', at := encoder.buf[..], encoder.pos;
    ghost var fixed, opt := FixedPart(ts, bid, ask, level), OptionalPart(symbol);
    r := PutFixed(encoder, ts, bid, ask, level);
    if r.Err? {
      return;
    }
    r := PutOptional(encoder, symbol);
    if r.Err? {
      return;
    }
    SpliceSplice(o', at, fixed, opt);
    SpliceSplice(o, 0, written, fixed + opt);
  }

  /** The fixed fields, each with `?`. */
  method PutFixed(encoder: FrameEncoder, ts: u64, bid: i64, ask: i64, level: byte) returns (r: Result<()>)
    requires encoder.Valid()
    modifies encoder, encoder.buf
    ensures Wrote(encoder, FixedPart(ts, bid, ask, level), r)
  {
    ghost var o, at := encoder.buf[..], encoder.pos;
    ghost var words := Words(ts, bid, ask);
    r := PutWords(encoder, ts, bid, ask);
    if r.Err? {
      return;
    }
    r := encoder.PutU8(level);
    if r.Err? {
      return;
    }
    SpliceSplice(o, at, words, [level]);
  }

  /** `put_u64(ts_ns)?`, `put_i64(bid)?`, `put_i64(ask)?`. */
  method PutWords(encoder: FrameEncoder, ts: u64, bid: i64, ask: i64) returns (r: Result<()>)
    requires encoder.Valid()
    modifies encoder, encoder.buf
    ensures Wrote(encoder, Words(ts, bid, ask), r)
  {
    ghost var o, at := encoder.buf[..], encoder.pos;
    ghost var a, b, c := LeBytes(ts, 8), LeBytes(I64Bits(bid), 8), LeBytes(I64Bits(ask), 8);
    r := encoder.PutU64(ts);
    if r.Err? {
      return;
    }
    r := encoder.PutI64(bid);
    if r.Err? {
      return;
    }
    SpliceSplice(o, at, a, b);
    r := encoder.PutI64(ask);
    if r.Err? {
      return;
    }
    SpliceSplice(o, at, a + b, c);
  }

  /** The bitmap and the symbol, each with `?`, when the symbol is present. */
  method PutOptional(encoder: FrameEncoder, symbol: Option<seq<byte>>) returns (r: Result<()>)
    requires encoder.Valid()
    modifies encoder, encoder.buf
    ensures Wrote(encoder, OptionalPart(symbol), r)
  {
    if symbol.None? {
      assert encoder.buf[..] == Splice(encoder.buf[..], encoder.pos, []);
      return Ok(());
    }
    ghost var o, at := encoder.buf[..], encoder.pos;
    ghost var bits, field := LeBytes(SYMBOL_BITMAP, 2), OptionalBytes(symbol);
    r := encoder.PutBitmap(SYMBOL_BITMAP);
    if r.Err? {
      return;
    }
    r := PutField(encoder, symbol);
    if r.Err? {
      return;
    }
    SpliceSplice(o, at, bits, field);
  }

  /**
   * The fixed fields as `get_u64`, `get_i64`, `get_i64` and `get_u8` read
   * them from the start of a body: bytes 0-8, 8-16, 16-24 and byte 24, or
   * UnexpectedEof from the first read that runs out, which happens exactly
   * when there are fewer than 25 bytes.
   */
  function ParsedFixed(body: seq<byte>): (r: Result<(u64, i64, i64, byte)>)
    ensures r.Ok? <==> |body| >= 25
    ensures r.Err? ==> r.error == UnexpectedEof
  {
    if |body| < 25 then Err(UnexpectedEof)
    else
      Pow256Widths();
      Ok((LeValue(body[0..8]), AsI64(LeValue(body[8..16])), AsI64(LeValue(body[16..24])), body[24]))
  }

  /** The symbol read from pos on: none without the flag, else the bitmap and the symbol if its bit is set. */
  function ParsedSymbol(present: bool, body: seq<byte>, pos: nat): (r: Result<Option<seq<byte>>>)
    requires pos <= |body|
    ensures !present ==> r == Ok(None)
    ensures present && pos + 2 > |body| ==> r == Err(UnexpectedEof)
  {
    if !present then Ok(None)
    else
      var bitmap :- ReadLe(body, pos, 2);
      Pow256Widths();
      var symbol :- ReadOptional(body, bitmap.1, FieldSet(bitmap.0, SYMBOL));
      Ok(symbol.0)
  }

  /** With the flag set, the two bytes at pos are the presence bitmap: the symbol is there exactly when bit 0 is set. */
  lemma ParsedSymbolBit(body: seq<byte>, pos: nat)
    requires pos + 2 <= |body|
    ensures var r := ParsedSymbol(true, body, pos);
      var b := LeValue(body[pos..pos + 2]);
      r.Ok? ==> b < 0x1_0000 && (r.value.Some? <==> FieldSet(b, SYMBOL))
  {
  }

  /** The fields of a quote body, read as `decode` reads them once the frame has checked out. */
  function ParsedBody(header: FrameHeader, body: seq<byte>): (r: Result<Fields>)
    ensures r.Ok? ==> r.value.header == header
    ensures r.Ok? && !header.HasFlag(PRESENCE_BITMAP) ==> r.value.symbol.None?
    ensures |body| < 25 ==> r == Err(UnexpectedEof)
  {
    var fixed :- ParsedFixed(body);
    var symbol :- ParsedSymbol(header.HasFlag(PRESENCE_BITMAP), body, 25);
    Ok(Fields(header, fixed.0, fixed.1, fixed.2, fixed.3, symbol))
  }

  /**
   * What `quote::decode` returns: the header's error first, then
   * UnsupportedMsgType, then the CRC check's error, then the body's.
   */
  function DecodedFields(buf: seq<byte>): (r: Result<Fields>)
    ensures var d := FrameDecoder(buf);
      && (d.Header().Err? ==> r == Err(d.Header().error))
      && (d.Header().Ok? && d.Header().value.msgType != QUOTE_V1 ==> r == Err(UnsupportedMsgType))
      && (d.Header().Ok? && d.Header().value.msgType == QUOTE_V1 && d.VerifyCrc32c().Err? ==>
            r == Err(d.VerifyCrc32c().error))
      && (r.Ok? ==> d.VerifyCrc32c().Ok? && r.value.header == d.Header().value && r.value.header.msgType == QUOTE_V1)
  {
    var d := FrameDecoder(buf);
    var header :- d.Header();
    if header.msgType != QUOTE_V1 then Err(UnsupportedMsgType)
    else
      var ok :- d.VerifyCrc32c();
      // `body()?`: cannot fail once the CRC check has passed
      match d.BodyBytes()
      case Err(e) => Err(e)
      case Ok(body) => ParsedBody(header, body)
  }

  /** `get_u64()?`, `get_i64()?`, `get_i64()?`, `get_u8()?` on a cursor at the start of the body. */
  method ReadFixed(body: BodyCursor) returns (r: Result<(u64, i64, i64, byte)>)
    requires body.pos == 0
    modifies body
    ensures r == ParsedFixed(body.buf)
    ensures r.Ok? ==> body.pos == 25 && body.Valid()
  {
    Pow256Widths();
    var ts := body.GetU64();
    if ts.Err? {
      return Err(ts.error);
    }
    var bid := body.GetI64();
    if bid.Err? {
      return Err(bid.error);
    }
    var ask := body.GetI64();
    if ask.Err? {
      return Err(ask.error);
    }
    var level := body.GetU8();
    if level.Err? {
      return Err(level.error);
    }
    return Ok((ts.value, bid.value, ask.value, level.value));
  }

  /** The optional half of `decode`: the bitmap, then the symbol if it is marked. */
  method ReadSymbol(body: BodyCursor, present: bool) returns (r: Result<Option<seq<byte>>>)
    requires body.Valid()
    modifies body
    ensures r == ParsedSymbol(present, body.buf, old(body.pos))
  {
    if !present {
      return Ok(None);
    }
    var bitmap := body.GetBitmap();
    if bitmap.Err? {
      return Err(bitmap.error);
    }
    r := GetOptional(body, FieldSet(bitmap.value, SYMBOL));
  }

  /** The body half of `quote::decode`, on a cursor at the start of the body. */
  method ReadFields(header: FrameHeader, body: BodyCursor) returns (r: Result<Fields>)
    requires body.pos == 0
    modifies body
    ensures r == ParsedBody(header, body.buf)
  {
    var fixed := ReadFixed(body);
    if fixed.Err? {
      return Err(fixed.error);
    }
    var symbol := ReadSymbol(body, header.HasFlag(PRESENCE_BITMAP));
    if symbol.Err? {
      return Err(symbol.error);
    }
    return Ok(Fields(header, fixed.value.0, fixed.value.1, fixed.value.2, fixed.value.3, symbol.value));
  }

  /** `quote::decode`. */
  method Decode(buf: seq<byte>) returns (r: Result<Fields>)
    ensures r == DecodedFields(buf)
  {
    var decoder := FrameDecoder(buf);
    var header :- decoder.Header();
    if header.msgType != QUOTE_V1 {
      return Err(UnsupportedMsgType);
    }
    var ok :- decoder.VerifyCrc32c();
    // `body()?`: cannot fail once the CRC check has passed
    var cursor := decoder.Body();
    match cursor
    case Err(e) =>
      return Err(e);
    case Ok(body) =>
      r := ReadFields(header, body);
  }

  /** The fixed fields read back as written, whatever follows them. */
  lemma FixedRoundTrip(ts: u64, bid: i64, ask: i64, level: byte, rest: seq<byte>)
    ensures ParsedFixed(FixedPart(ts, bid, ask, level) + rest) == Ok((ts, bid, ask, level))
  {
    var a, b, c := LeBytes(ts, 8), LeBytes(I64Bits(bid), 8), LeBytes(I64Bits(ask), 8);
    FourParts(a, b, c, level, rest);
    Pow256Widths();
    LeValueOfLeBytes(ts, 8);
    LeValueOfLeBytes(I64Bits(bid), 8);
    LeValueOfLeBytes(I64Bits(ask), 8);
    I64BitsRoundTrip(bid);
    I64BitsRoundTrip(ask);
  }

  /** Where three 8-byte parts and a byte sit in their concatenation. */
  lemma FourParts(a: seq<byte>, b: seq<byte>, c: seq<byte>, d: byte, rest: seq<byte>)
    requires |a| == 8 && |b| == 8 && |c| == 8
    ensures var s := a + b + c + [d] + rest; s[0..8] == a && s[8..16] == b && s[16..24] == c && s[24] == d
  {
  }

  /** The optional part reads back as written, whatever precedes and follows it. */
  lemma OptionalRoundTrip(p: seq<byte>, symbol: Option<seq<byte>>, rest: seq<byte>)
    requires symbol.Some? ==> |symbol.value| < 0x1_0000_0000
    ensures ParsedSymbol(symbol.Some?, p + OptionalPart(symbol) + rest, |p|) == Ok(symbol)
  {
    if symbol.Some? {
      var bits, field := LeBytes(SYMBOL_BITMAP, 2), OptionalBytes(symbol);
      assert OptionalPart(symbol) == bits + field;
      Regroup(p, bits, field, rest);
      Pow256Widths();
      ReadLeOf(p, SYMBOL_BITMAP, 2, field + rest);
      ReadOptionalOf(p + bits, symbol, rest);
    }
  }

  /** The grouping of a prefix, two parts and a suffix that reading the parts one by one needs. */
  lemma Regroup(p: seq<byte>, a: seq<byte>, b: seq<byte>, rest: seq<byte>)
    ensures p + (a + b) + rest == p + a + (b + rest)
    ensures p + (a + b) + rest == p + a + b + rest
  {
  }

  /** A quote body reads back as the fields it was written from. */
  lemma {:induction false} BodyRoundTrip(header: FrameHeader, ts: u64, bid: i64, ask: i64, level: byte,
                                         symbol: Option<seq<byte>>)
    requires header.HasFlag(PRESENCE_BITMAP) <==> symbol.Some?
    requires |Body(ts, bid, ask, level, symbol)| <= MAX_BODY_LEN
    ensures ParsedBody(header, Body(ts, bid, ask, level, symbol)) == Ok(Fields(header, ts, bid, ask, level, symbol))
  {
    FixedRoundTrip(ts, bid, ask, level, OptionalPart(symbol));
    OptionalRoundTrip(FixedPart(ts, bid, ask, level), symbol, []);
    assert FixedPart(ts, bid, ask, level) + OptionalPart(symbol) + [] == Body(ts, bid, ask, level, symbol);
  }

  /**
   * Round trip: decoding what `encode` produced, with anything after it,
   * gives the same fields under the encoder's header with len set to the
   * body length.
   */
  lemma RoundTrip(sequence: u32, ts: u64, bid: i64, ask: i64, level: byte,
                  symbol: Option<seq<byte>>, rest: seq<byte>)
    requires |Body(ts, bid, ask, level, symbol)| <= MAX_BODY_LEN
    ensures var h := MessageHeader(QUOTE_V1, sequence, symbol.Some?);
      DecodedFields(EncodedFrame(sequence, ts, bid, ask, level, symbol) + rest)
        == Ok(Fields(h.(len := |Body(ts, bid, ask, level, symbol)|), ts, bid, ask, level, symbol))
  {
    var h := MessageHeader(QUOTE_V1, sequence, symbol.Some?);
    var body := Body(ts, bid, ask, level, symbol);
    var h' := h.(len := |body|);
    DecodeFinished(h, body, rest);
    assert h'.Valid();
    assert h'.HasFlag(PRESENCE_BITMAP) == h.HasFlag(PRESENCE_BITMAP);
    BodyRoundTrip(h', ts, bid, ask, level, symbol);
  }

  /** A quote without a symbol is a 45-byte frame; a symbol adds the bitmap and the varbytes field. */
  lemma FrameSize(sequence: u32, ts: u64, bid: i64, ask: i64, level: byte, symbol: Option<seq<byte>>)
    ensures |EncodedFrame(sequence, ts, bid, ask, level, None)| == 45
    ensures symbol.Some? ==> |EncodedFrame(sequence, ts, bid, ask, level, symbol)| > 47 + |symbol.value|
  {
  }

  /** A trade frame handed to `quote::decode` is refused as UnsupportedMsgType. */
  lemma TradeIsNotQuote(sequence: u32, ts: u64, price: i64, qty: u32,
                        symbol: Option<seq<byte>>, note: Option<seq<byte>>, rest: seq<byte>)
    requires |Trade.Body(ts, price, qty, symbol, note)| <= MAX_BODY_LEN
    ensures DecodedFields(Trade.EncodedFrame(sequence, ts, price, qty, symbol, note) + rest) == Err(UnsupportedMsgType)
  {
    var h := MessageHeader(TRADE_V1, sequence, symbol.Some? || note.Some?);
    var body := Trade.Body(ts, price, qty, symbol, note);
    DecodeFinished(h, body, rest);
    assert h.(len := |body|).Valid();
  }

  /** A quote frame handed to `trade::decode` is refused as UnsupportedMsgType. */
  lemma QuoteIsNotTrade(sequence: u32, ts: u64, bid: i64, ask: i64, level: byte,
                        symbol: Option<seq<byte>>, rest: seq<byte>)
    requires |Body(ts, bid, ask, level, symbol)| <= MAX_BODY_LEN
    ensures Trade.DecodedFields(EncodedFrame(sequence, ts, bid, ask, level, symbol) + rest) == Err(UnsupportedMsgType)
  {
    var h := MessageHeader(QUOTE_V1, sequence, symbol.Some?);
    var body := Body(ts, bid, ask, level, symbol);
    DecodeFinished(h, body, rest);
    assert h.(len := |body|).Valid();
  }
}
