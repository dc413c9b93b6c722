/**
 * LEB128 variable-length integers (unsigned, 32 and 64 bit): seven data bits
 * per byte, least significant group first, continuation bit 0x80 on every byte
 * but the last.
 */
module Varint {
  import opened Errors
  import opened Bytes

  const MAX_VARINT_U32_SIZE: nat := 5
  const MAX_VARINT_U64_SIZE: nat := 10

  /** The bytes the encoders emit for v. */
  function Leb128(v: nat): (r: seq<byte>)
    ensures |r| >= 1
    decreases v
  {
    if v < 0x80 then [v] else [v % 0x80 + 0x80] + Leb128(v / 0x80)
  }

  /** The seven-bit groups of s read least significant first, without any width limit. */
  function Groups(s: seq<byte>): nat
  {
    if s == [] then 0 else s[0] % 0x80 + 0x80 * Groups(s[1..])
  }

  /** Index of the first byte of s whose continuation bit is clear, or |s| when there is none. */
  function Terminator(s: seq<byte>): (t: nat)
    ensures t <= |s|
    ensures forall i :: 0 <= i < t ==> s[i] >= 0x80
    ensures t < |s| ==> s[t] < 0x80
  {
    if s == [] then 0 else if s[0] < 0x80 then 0 else 1 + Terminator(s[1..])
  }

  /** Number of bytes a decoder of the given width reads before it reports Overflow. */
  function MaxBytes(width: nat): (n: nat)
    ensures width == 32 ==> n == MAX_VARINT_U32_SIZE
    ensures width == 64 ==> n == MAX_VARINT_U64_SIZE
    ensures 7 * n >= width && (n == 0 || 7 * (n - 1) < width)
  {
    (width + 6) / 7
  }

  /**
   * The outcome of decoding buf at the given width (32 for decode_u32, 64 for
   * decode_u64): the value of the groups up to the first byte without the
   * continuation bit, cut to the width, and the number of bytes read.
   */
  function Decoded(buf: seq<byte>, width: nat): (r: Result<(nat, nat)>)
    ensures r.Ok? ==> r.value.0 < Pow2(width) && 1 <= r.value.1 <= |buf| && r.value.1 <= MaxBytes(width)
    ensures r.Err? ==> r.error == UnexpectedEof || r.error == Overflow
  {
    var t := Terminator(buf);
    if t < |buf| && t < MaxBytes(width) then Ok((Groups(buf[..t + 1]) % Pow2(width), t + 1))
    else if |buf| <= MaxBytes(width) then Err(UnexpectedEof)
    else Err(Overflow)
  }

  // ---------------------------------------------------------------------------
  // Facts about the encoding

  /** Every byte but the last carries the continuation bit; the last does not. */
  lemma {:induction false} Leb128Shape(v: nat)
    ensures forall i :: 0 <= i < |Leb128(v)| - 1 ==> Leb128(v)[i] >= 0x80
    ensures Leb128(v)[|Leb128(v)| - 1] < 0x80
    ensures Terminator(Leb128(v)) == |Leb128(v)| - 1
    decreases v
  {
    var e := Leb128(v);
    if v >= 0x80 {
      var tail := Leb128(v / 0x80);
      Leb128Shape(v / 0x80);
      assert e == [v % 0x80 + 0x80] + tail;
      assert e[1..] == tail;
      forall i | 0 <= i < |e| - 1
        ensures e[i] >= 0x80
      {
        if i > 0 { assert e[i] == tail[i - 1]; }
      }
      assert e[|e| - 1] == tail[|tail| - 1];
    }
  }

  /** The groups of the encoding add back up to v. */
  lemma {:induction false} Leb128Groups(v: nat)
    ensures Groups(Leb128(v)) == v
    decreases v
  {
    if v >= 0x80 {
      Leb128Groups(v / 0x80);
      assert Leb128(v)[1..] == Leb128(v / 0x80);
    }
  }

  /** Minimal length: v fits in k bytes exactly when v < 2^(7k). */
  lemma {:induction false} Leb128Length(v: nat, k: nat)
    requires k >= 1
    ensures |Leb128(v)| <= k <==> v < Pow2(7 * k)
    decreases k
  {
    Pow2Seven(k);
    if k > 1 {
      Leb128Length(v / 0x80, k - 1);
      Pow2Seven(k - 1);
    }
  }

  lemma {:induction false} Pow2Seven(k: nat)
    ensures k >= 1 ==> Pow2(7 * k) == 0x80 * Pow2(7 * (k - 1))
  {
    if k >= 1 {
      var n := 7 * (k - 1);
      assert Pow2(n + 7) == 2 * Pow2(n + 6) == 4 * Pow2(n + 5) == 8 * Pow2(n + 4)
        == 16 * Pow2(n + 3) == 32 * Pow2(n + 2) == 64 * Pow2(n + 1) == 128 * Pow2(n);
    }
  }

  // ---------------------------------------------------------------------------
  // Facts about decoding

  lemma {:induction false} Pow2Add(a: nat, b: nat)
    ensures Pow2(a + b) == Pow2(a) * Pow2(b)
  {
    if a > 0 {
      Pow2Add(a - 1, b);
    }
  }

  lemma Pow2Of32()
    ensures Pow2(32) == 0x1_0000_0000
  {
    assert Pow2(8) == 0x100;
    Pow2Add(8, 8);
    Pow2Add(16, 16);
  }

  lemma Pow2Of64()
    ensures Pow2(64) == 0x1_0000_0000_0000_0000
  {
    Pow2Of32();
    Pow2Add(32, 32);
  }

  /** Five groups hold more than 32 bits. */
  lemma Pow2Of35()
    ensures Pow2(35) == 8 * 0x1_0000_0000
  {
    Pow2Of32();
    Pow2Add(32, 3);
  }

  /** Ten groups hold more than 64 bits. */
  lemma Pow2Of70()
    ensures Pow2(70) == 64 * 0x1_0000_0000_0000_0000
  {
    Pow2Of64();
    Pow2Add(64, 6);
  }

  /** The two widths the decoders use. */
  lemma Pow2Width(width: nat)
    requires width == 32 || width == 64
    ensures Pow2(width) == 0x1_0000_0000 || Pow2(width) == 0x1_0000_0000_0000_0000
  {
    Pow2Of32();
    Pow2Of64();
  }

  lemma {:induction false} TerminatorOfPrefix(e: seq<byte>, rest: seq<byte>)
    requires Terminator(e) < |e|
    ensures Terminator(e + rest) == Terminator(e)
  {
    if e[0] >= 0x80 {
      assert (e + rest)[1..] == e[1..] + rest;
      TerminatorOfPrefix(e[1..], rest);
    }
  }

  lemma RoundTrip(v: nat, rest: seq<byte>)
    ensures Terminator(Leb128(v) + rest) == |Leb128(v)| - 1
    ensures (Leb128(v) + rest)[..|Leb128(v)|] == Leb128(v)
    ensures Groups(Leb128(v)) == v
  {
    var e := Leb128(v);
    Leb128Shape(v);
    TerminatorOfPrefix(e, rest);
    assert (e + rest)[..|e|] == e;
    Leb128Groups(v);
  }

  /** A terminated varint within the byte limit decodes to its groups, when they fit the width. */
  lemma DecodedOk(buf: seq<byte>, width: nat, n: nat, value: nat)
    requires 1 <= n <= MaxBytes(width) && n <= |buf| && Terminator(buf) == n - 1
    requires Groups(buf[..n]) == value < Pow2(width)
    ensures Decoded(buf, width) == Ok((value, n))
  {
    ModSmall(value, Pow2(width));
  }

  lemma ModSmall(a: nat, m: nat)
    requires a < m
    ensures a % m == a
  {
  }

  /** decode_u32 inverts encode_u32, which never needs more than five bytes. */
  lemma RoundTripU32(v: u32, rest: seq<byte>)
    ensures |Leb128(v)| <= MAX_VARINT_U32_SIZE
    ensures Decoded(Leb128(v) + rest, 32) == Ok((v, |Leb128(v)|))
  {
    Pow2Of35();
    Leb128Length(v, 5);
    RoundTrip(v, rest);
    Pow2Of32();
    DecodedOk(Leb128(v) + rest, 32, |Leb128(v)|, v);
  }

  /** decode_u64 inverts encode_u64, which never needs more than ten bytes. */
  lemma RoundTripU64(v: u64, rest: seq<byte>)
    ensures |Leb128(v)| <= MAX_VARINT_U64_SIZE
    ensures Decoded(Leb128(v) + rest, 64) == Ok((v, |Leb128(v)|))
  {
    Pow2Of70();
    Leb128Length(v, 10);
    RoundTrip(v, rest);
    Pow2Of64();
    DecodedOk(Leb128(v) + rest, 64, |Leb128(v)|, v);
  }

  /** The lengths at the group boundaries: 1 byte below 128, 2 bytes up to 16383, 3 or more from 16384. */
  lemma Leb128Boundaries(v: nat)
    ensures v < 128 <==> |Leb128(v)| == 1
    ensures 128 <= v < 16384 <==> |Leb128(v)| == 2
    ensures 16384 <= v <==> |Leb128(v)| >= 3
  {
    assert Pow2(7) == 128 && Pow2(14) == 16384;
    Leb128Length(v, 1);
    Leb128Length(v, 2);
  }

  /** A successful decode reads up to and including the first byte without the continuation bit. */
  lemma DecodedConsumes(buf: seq<byte>, width: nat)
    requires Decoded(buf, width).Ok?
    ensures var n := Decoded(buf, width).value.1;
      1 <= n <= |buf| && n <= MaxBytes(width) && buf[n - 1] < 0x80 &&
      forall i :: 0 <= i < n - 1 ==> buf[i] >= 0x80
  {
  }

  /** A decode fails with UnexpectedEof exactly when the input runs out while the continuation bit is still set. */
  lemma DecodedEof(buf: seq<byte>, width: nat)
    ensures Decoded(buf, width) == Err(UnexpectedEof) <==>
      |buf| <= MaxBytes(width) && forall i :: 0 <= i < |buf| ==> buf[i] >= 0x80
  {
  }

  /** A decode fails with Overflow exactly when the first MaxBytes(width) bytes all carry the continuation bit and more follow. */
  lemma DecodedOverflow(buf: seq<byte>, width: nat)
    ensures Decoded(buf, width) == Err(Overflow) <==>
      |buf| > MaxBytes(width) && forall i :: 0 <= i < MaxBytes(width) ==> buf[i] >= 0x80
  {
  }

  /** decode_u32 keeps only 32 bits of a fifth byte, so an overlong form of u32::MAX decodes as the canonical one does. */
  lemma DecodeU32Truncates()
    ensures Leb128(0xFFFF_FFFF) == [0xFF, 0xFF, 0xFF, 0xFF, 0x0F]
    ensures Decoded([0xFF, 0xFF, 0xFF, 0xFF, 0x7F], 32) == Ok((0xFFFF_FFFF, 5))
  {
    var b: seq<byte> := [0xFF, 0xFF, 0xFF, 0xFF, 0x7F];
    assert Terminator(b) == 4;
    assert b[..5] == b;
    OverlongGroups();
    Pow2Of32();
  }

  lemma OverlongGroups()
    ensures Groups([0xFF, 0xFF, 0xFF, 0xFF, 0x7F]) == 0x7_FFFF_FFFF
  {
    var b: seq<byte> := [0xFF, 0xFF, 0xFF, 0xFF, 0x7F];
    assert Groups(b[4..]) == 0x7F;
    assert b[3..][1..] == b[4..];
    assert Groups(b[3..]) == 0x3FFF;
    assert b[2..][1..] == b[3..];
    assert Groups(b[2..]) == 0x1F_FFFF;
    assert b[1..][1..] == b[2..];
    assert Groups(b[1..]) == 0xFFF_FFFF;
  }

  /** The examples minibit's tests use: u32::MAX needs five bytes, and [0x80] is a truncated varint. */
  lemma Examples()
    ensures |Leb128(0xFFFF_FFFF)| == 5
    ensures Decoded([0x80], 32) == Err(UnexpectedEof)
  {
  }

  // ---------------------------------------------------------------------------
  // The encoders and decoders

  lemma {:induction false} GroupsSnoc(s: seq<byte>, b: byte)
    ensures Groups(s + [b]) == Groups(s) + (b % 0x80) * Pow2(7 * |s|)
  {
    if s == [] {
      assert [b][1..] == [];
    } else {
      var c, p := b % 0x80, Pow2(7 * (|s| - 1));
      assert (s + [b])[1..] == s[1..] + [b];
      GroupsSnoc(s[1..], b);
      Pow2Seven(|s|);
      assert 0x80 * (c * p) == c * (0x80 * p);
    }
  }

  lemma ModAddMod(a: nat, x: nat, m: nat)
    requires m == 0x1_0000_0000 || m == 0x1_0000_0000_0000_0000
    ensures (a % m + x) % m == (a + x) % m
  {
  }

  /** One turn of the decoding loop: adding the next group keeps the running value equal to the groups read so far, cut to the width. */
  lemma DecodeStep(buf: seq<byte>, pos: nat, width: nat)
    requires width == 32 || width == 64
    requires pos < |buf|
    ensures buf[..pos + 1] == buf[..pos] + [buf[pos]]
    ensures (Groups(buf[..pos]) % Pow2(width) + (buf[pos] % 0x80) * Pow2(7 * pos)) % Pow2(width)
      == Groups(buf[..pos + 1]) % Pow2(width)
  {
    var prefix := buf[..pos];
    assert buf[..pos + 1] == prefix + [buf[pos]];
    var a, x := Groups(prefix), (buf[pos] % 0x80) * Pow2(7 * pos);
    assert Groups(buf[..pos + 1]) == a + x by {
      GroupsSnoc(prefix, buf[pos]);
    }
    assert (a % Pow2(width) + x) % Pow2(width) == (a + x) % Pow2(width) by {
      Pow2Width(width);
      ModAddMod(a, x, Pow2(width));
    }
  }

  /** The shift reaches the width exactly when MaxBytes(width) bytes have been read. */
  lemma ShiftBound(pos: nat, width: nat)
    requires width == 32 || width == 64
    ensures 7 * pos >= width <==> pos >= MaxBytes(width)
  {
  }

  /**
   * The loop shared by decode_u32 (width 32) and decode_u64 (width 64). The
   * Rust code ORs `((byte & 0x7F) as uN) << shift` into the result; the groups
   * occupy disjoint bits and the shift drops what passes the width, so that is
   * the sum below taken modulo 2^width.
   */
  method DecodeLeb128(buf: seq<byte>, width: nat) returns (r: Result<(nat, nat)>)
    requires width == 32 || width == 64
    ensures r == Decoded(buf, width)
  {
    var result := 0;
    var shift := 0;
    var pos := 0;
    assert buf[..0] == [];
    Pow2Width(width);
    assert Groups(buf[..0]) % Pow2(width) == 0;
    while true
      invariant pos <= |buf| && pos <= Terminator(buf)
      invariant shift == 7 * pos && pos <= MaxBytes(width)
      invariant result == Groups(buf[..pos]) % Pow2(width)
      decreases |buf| - pos
    {
      if pos >= |buf| {
        return Err(UnexpectedEof);
      }
      if shift >= width {
        ShiftBound(pos, width);
        return Err(Overflow);
      }
      ShiftBound(pos, width);
      var b := buf[pos];
      DecodeStep(buf, pos, width);
      result := (result + (b % 0x80) * Pow2(shift)) % Pow2(width);
      assert result == Groups(buf[..pos + 1]) % Pow2(width);
      pos := pos + 1;
      if b < 0x80 {
        return Ok((result, pos));
      }
      shift := shift + 7;
    }
  }

  /** `decode_u32`: the value and the number of bytes read. */
  method DecodeU32(buf: seq<byte>) returns (r: Result<(nat, nat)>)
    ensures r == Decoded(buf, 32)
    ensures r.Ok? ==> r.value.0 < 0x1_0000_0000 && 1 <= r.value.1 <= MAX_VARINT_U32_SIZE
  {
    Pow2Of32();
    r := DecodeLeb128(buf, 32);
  }

  /** `decode_u64`: the value and the number of bytes read. */
  method DecodeU64(buf: seq<byte>) returns (r: Result<(nat, nat)>)
    ensures r == Decoded(buf, 64)
    ensures r.Ok? ==> r.value.0 < 0x1_0000_0000_0000_0000 && 1 <= r.value.1 <= MAX_VARINT_U64_SIZE
  {
    Pow2Of64();
    r := DecodeLeb128(buf, 64);
  }

  /**
   * The loop shared by encode_u32 and encode_u64, writing into the slice
   * `buf[start..]` the caller passes. On success it returns the length and
   * touches nothing past it; when the slice ends first it has written the
   * slice full with the leading bytes of the encoding and returns ShortBuffer.
   */
  method EncodeLeb128(value: nat, buf: array<byte>, start: nat) returns (r: Result<nat>)
    requires start <= buf.Length
    modifies buf
    ensures start + |Leb128(value)| <= buf.Length ==>
      r == Ok(|Leb128(value)|) && buf[..] == Splice(old(buf[..]), start, Leb128(value))
    ensures start + |Leb128(value)| > buf.Length ==>
      r == Err(ShortBuffer) && buf[..] == old(buf[..])[..start] + Leb128(value)[..buf.Length - start]
  {
    var v := value;
    var pos := 0;
    ghost var e := Leb128(value);
    ghost var o := old(buf[..]);
    while true
      invariant start + pos <= buf.Length
      invariant pos + |Leb128(v)| == |e| && e[pos..] == Leb128(v)
      invariant buf[..] == o[..start] + e[..pos] + o[start + pos..]
      decreases buf.Length - start - pos
    {
      if start + pos >= buf.Length {
        assert o[start + pos..] == [];
        return Err(ShortBuffer);
      }
      assert e[pos] == Leb128(v)[0];
      PrefixStep(o, start, e, pos);
      if v < 0x80 {
        buf[start + pos] := v;
        assert e[..pos + 1] == e;
        return Ok(pos + 1);
      }
      buf[start + pos] := v % 0x80 + 0x80;
      assert Leb128(v)[1..] == Leb128(v / 0x80);
      assert e[pos + 1..] == e[pos..][1..];
      v := v / 0x80;
      pos := pos + 1;
    }
  }

  /** Writing the next byte of e extends the written prefix by one. */
  lemma PrefixStep(o: seq<byte>, start: nat, e: seq<byte>, pos: nat)
    requires pos < |e| && start + pos < |o|
    ensures (o[..start] + e[..pos] + o[start + pos..])[start + pos := e[pos]]
      == o[..start] + e[..pos + 1] + o[start + pos + 1..]
  {
    var l := (o[..start] + e[..pos] + o[start + pos..])[start + pos := e[pos]];
    var r := o[..start] + e[..pos + 1] + o[start + pos + 1..];
    assert forall k :: 0 <= k < |o| ==> l[k] == r[k];
  }

  /** `encode_u32` into the slice `buf[start..]`. */
  method EncodeU32(value: u32, buf: array<byte>, start: nat) returns (r: Result<nat>)
    requires start <= buf.Length
    modifies buf
    ensures |Leb128(value)| <= MAX_VARINT_U32_SIZE
    ensures start + |Leb128(value)| <= buf.Length ==>
      r == Ok(|Leb128(value)|) && buf[..] == Splice(old(buf[..]), start, Leb128(value))
    ensures start + |Leb128(value)| > buf.Length ==>
      r == Err(ShortBuffer) && buf[..] == old(buf[..])[..start] + Leb128(value)[..buf.Length - start]
  {
    RoundTripU32(value, []);
    r := EncodeLeb128(value, buf, start);
  }

  /** `encode_u64` into the slice `buf[start..]`. */
  method EncodeU64(value: u64, buf: array<byte>, start: nat) returns (r: Result<nat>)
    requires start <= buf.Length
    modifies buf
    ensures |Leb128(value)| <= MAX_VARINT_U64_SIZE
    ensures start + |Leb128(value)| <= buf.Length ==>
      r == Ok(|Leb128(value)|) && buf[..] == Splice(old(buf[..]), start, Leb128(value))
    ensures start + |Leb128(value)| > buf.Length ==>
      r == Err(ShortBuffer) && buf[..] == old(buf[..])[..start] + Leb128(value)[..buf.Length - start]
  {
    RoundTripU64(value, []);
    r := EncodeLeb128(value, buf, start);
  }
}
