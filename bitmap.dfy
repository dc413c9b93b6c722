/**
 * Presence bitmaps: which optional fields of a message are present, one bit
 * per field index, in an 8-bit or a 16-bit form.
 */
module Bitmap {
  import opened Errors
  import opened Bytes

  const BITMAP_8_MAX_FIELDS: nat := 8
  const BITMAP_16_MAX_FIELDS: nat := 16

  datatype BitmapSize = U8 | U16 {
    /** Encoded size in bytes. */
    function Bytes(): (n: nat)
      ensures n == 1 || n == 2
    {
      match this
      case U8 => 1
      case U16 => 2
    }

    /** Number of field indices the bitmap can hold. */
    function MaxFields(): (n: nat)
      ensures n <= 16
      ensures n == 8 * Bytes()
    {
      match this
      case U8 => BITMAP_8_MAX_FIELDS
      case U16 => BITMAP_16_MAX_FIELDS
    }
  }

  // ---------------------------------------------------------------------------
  // Bits as values

  /** The word with only bit i set. */
  function Mask(i: nat): bv16
    requires i < 16
  {
    1 << i
  }

  /** Bit i of the word is one. */
  predicate Bit(bits: bv16, i: nat)
    requires i < 16
  {
    (bits >> i) & 1 != 0
  }

  /** The number of one bits among the n lowest. */
  function Ones(bits: bv16, n: nat): (c: nat)
    requires n <= 16
    ensures c <= n
  {
    if n == 0 then 0 else Ones(bits, n - 1) + (if Bit(bits, n - 1) then 1 else 0)
  }

  /** The indices below n whose bit is one, in ascending order. */
  function Indices(bits: bv16, n: nat): seq<nat>
    requires n <= 16
  {
    if n == 0 then [] else Indices(bits, n - 1) + (if Bit(bits, n - 1) then [n - 1] else [])
  }

  /** The bytes `encode` writes: the low byte for U8, both bytes little-endian for U16. */
  function EncodedBits(bits: bv16, size: BitmapSize): (r: seq<byte>)
    ensures |r| == size.Bytes()
  {
    LeBytes(bits as int, size.Bytes())
  }

  /** What `decode` reads from the front of buf: the bits and the number of bytes taken. */
  function DecodedBits(buf: seq<byte>, size: BitmapSize): (r: Result<(bv16, nat)>)
    ensures r.Ok? <==> |buf| >= size.Bytes()
    ensures r.Err? ==> r.error == UnexpectedEof
    ensures r.Ok? ==> r.value.1 == size.Bytes() && r.value.0 == LeValue(buf[..size.Bytes()]) as bv16
  {
    match size
    case U8 =>
      if |buf| == 0 then Err(UnexpectedEof)
      else
        assert buf[..1][1..] == [];
        Ok((buf[0] as bv16, 1))
    case U16 =>
      if |buf| < 2 then Err(UnexpectedEof)
      else
        assert buf[..2][1..][1..] == [];
        Ok(((buf[0] as int + 0x100 * buf[1] as int) as bv16, 2))
  }

  // ---------------------------------------------------------------------------
  // Facts about bits

  // The bit facts below are proved one index at a time, so that every shift amount is a constant.

  lemma OrBit(a: bv16, b: bv16, j: nat)
    requires j < 16
    ensures Bit(a | b, j) == (Bit(a, j) || Bit(b, j))
  {
    if j == 0 {
    } else if j == 1 {
    } else if j == 2 {
    } else if j == 3 {
    } else if j == 4 {
    } else if j == 5 {
    } else if j == 6 {
    } else if j == 7 {
    } else if j == 8 {
    } else if j == 9 {
    } else if j == 10 {
    } else if j == 11 {
    } else if j == 12 {
    } else if j == 13 {
    } else if j == 14 {
    } else if j == 15 {
    }
  }

  lemma AndNotBit(a: bv16, b: bv16, j: nat)
    requires j < 16
    ensures Bit(a & !b, j) == (Bit(a, j) && !Bit(b, j))
  {
    if j == 0 {
    } else if j == 1 {
    } else if j == 2 {
    } else if j == 3 {
    } else if j == 4 {
    } else if j == 5 {
    } else if j == 6 {
    } else if j == 7 {
    } else if j == 8 {
    } else if j == 9 {
    } else if j == 10 {
    } else if j == 11 {
    } else if j == 12 {
    } else if j == 13 {
    } else if j == 14 {
    } else if j == 15 {
    }
  }

  /** `1 << i` has exactly bit i set. */
  lemma MaskBit(i: nat, j: nat)
    requires i < 16 && j < 16
    ensures Bit(Mask(i), j) == (i == j)
  {
    if j == 0 {
    } else if j == 1 {
    } else if j == 2 {
    } else if j == 3 {
    } else if j == 4 {
    } else if j == 5 {
    } else if j == 6 {
    } else if j == 7 {
    } else if j == 8 {
    } else if j == 9 {
    } else if j == 10 {
    } else if j == 11 {
    } else if j == 12 {
    } else if j == 13 {
    } else if j == 14 {
    } else if j == 15 {
    }
  }

  /** Setting bit i makes bit i one and leaves every other bit as it was. */
  lemma SetBit(bits: bv16, i: nat, j: nat)
    requires i < 16 && j < 16
    ensures Bit(bits | Mask(i), j) == (j == i || Bit(bits, j))
  {
    OrBit(bits, Mask(i), j);
    MaskBit(i, j);
    if j == 0 {
    } else if j == 1 {
    } else if j == 2 {
    } else if j == 3 {
    } else if j == 4 {
    } else if j == 5 {
    } else if j == 6 {
    } else if j == 7 {
    } else if j == 8 {
    } else if j == 9 {
    } else if j == 10 {
    } else if j == 11 {
    } else if j == 12 {
    } else if j == 13 {
    } else if j == 14 {
    } else if j == 15 {
    }
  }

  /** Clearing bit i makes bit i zero and leaves every other bit as it was. */
  lemma ClearBit(bits: bv16, i: nat, j: nat)
    requires i < 16 && j < 16
    ensures Bit(bits & !Mask(i), j) == (j != i && Bit(bits, j))
  {
    AndNotBit(bits, Mask(i), j);
    MaskBit(i, j);
    if j == 0 {
    } else if j == 1 {
    } else if j == 2 {
    } else if j == 3 {
    } else if j == 4 {
    } else if j == 5 {
    } else if j == 6 {
    } else if j == 7 {
    } else if j == 8 {
    } else if j == 9 {
    } else if j == 10 {
    } else if j == 11 {
    } else if j == 12 {
    } else if j == 13 {
    } else if j == 14 {
    } else if j == 15 {
    }
  }

  lemma SetBits(bits: bv16, i: nat)
    requires i < 16
    ensures forall j: nat :: j < 16 ==> (Bit(bits | Mask(i), j) <==> j == i || Bit(bits, j))
  {
    forall j: nat | j < 16 {
      SetBit(bits, i, j);
    }
  }

  lemma NoBitIsZero(bits: bv16)
    requires (bits >> 0) & 1 == 0 && (bits >> 1) & 1 == 0 && (bits >> 2) & 1 == 0 && (bits >> 3) & 1 == 0
    requires (bits >> 4) & 1 == 0 && (bits >> 5) & 1 == 0 && (bits >> 6) & 1 == 0 && (bits >> 7) & 1 == 0
    requires (bits >> 8) & 1 == 0 && (bits >> 9) & 1 == 0 && (bits >> 10) & 1 == 0 && (bits >> 11) & 1 == 0
    requires (bits >> 12) & 1 == 0 && (bits >> 13) & 1 == 0 && (bits >> 14) & 1 == 0 && (bits >> 15) & 1 == 0
    ensures bits == 0
  {
  }

  /** A bitmap is zero exactly when it has no one bit. */
  lemma ZeroIffNoBit(bits: bv16)
    ensures bits == 0 <==> forall j :: 0 <= j < 16 ==> !Bit(bits, j)
  {
    if forall j :: 0 <= j < 16 ==> !Bit(bits, j) {
      assert !Bit(bits, 0) && !Bit(bits, 1) && !Bit(bits, 2) && !Bit(bits, 3);
      assert !Bit(bits, 4) && !Bit(bits, 5) && !Bit(bits, 6) && !Bit(bits, 7);
      assert !Bit(bits, 8) && !Bit(bits, 9) && !Bit(bits, 10) && !Bit(bits, 11);
      assert !Bit(bits, 12) && !Bit(bits, 13) && !Bit(bits, 14) && !Bit(bits, 15);
      NoBitIsZero(bits);
    }
  }

  /** Ones counts exactly the one bits. */
  lemma {:induction false} OnesZero(bits: bv16, n: nat)
    requires n <= 16
    ensures Ones(bits, n) == 0 <==> forall j :: 0 <= j < n ==> !Bit(bits, j)
  {
    if n > 0 {
      OnesZero(bits, n - 1);
    }
  }

  /** The set indices below n are exactly the indices whose bit is one. */
  lemma {:induction false} IndicesMembers(bits: bv16, n: nat)
    requires n <= 16
    ensures forall j: nat :: j in Indices(bits, n) <==> j < n && Bit(bits, j)
    ensures forall a, b :: 0 <= a < b < |Indices(bits, n)| ==> Indices(bits, n)[a] < Indices(bits, n)[b]
    ensures |Indices(bits, n)| == Ones(bits, n)
  {
    if n > 0 {
      IndicesMembers(bits, n - 1);
      var front := Indices(bits, n - 1);
      forall a | 0 <= a < |front|
        ensures front[a] < n - 1
      {
        assert front[a] in front;
      }
    }
  }

  /** The bits of a bitmap fit the bytes of its size. */
  lemma FitsSize(bits: bv16, size: BitmapSize)
    requires size == U16 || bits < 0x100
    ensures bits as int < Pow256(size.Bytes())
  {
    assert Pow256(1) == 0x100 && Pow256(2) == 0x1_0000;
  }

  /** Bits that fit the size survive encoding and decoding, and so does the byte count. */
  lemma DecodeEncoded(bits: bv16, size: BitmapSize, rest: seq<byte>)
    requires size == U16 || bits < 0x100
    ensures DecodedBits(EncodedBits(bits, size) + rest, size) == Ok((bits, size.Bytes()))
  {
    var e := EncodedBits(bits, size);
    FitsSize(bits, size);
    LeValueOfLeBytes(bits as int, size.Bytes());
    assert (e + rest)[..size.Bytes()] == e;
  }

  // ---------------------------------------------------------------------------
  // The bitmap object

  /** `PresenceBitmap`: the raw bits and the size they are encoded in. */
  class PresenceBitmap {
    var bits: bv16
    const size: BitmapSize

    /** `new`: no field present. */
    constructor New(size: BitmapSize)
      ensures bits == 0 && this.size == size
    {
      bits := 0;
      this.size := size;
    }

    /** `from_bits`: the raw bits as given, even those past the size. */
    constructor FromBits(bits: bv16, size: BitmapSize)
      ensures this.bits == bits && this.size == size
    {
      this.bits := bits;
      this.size := size;
    }

    /** `is_set`: false for every index past the size, whatever the raw bits. */
    predicate IsSet(i: nat)
      reads this
      ensures IsSet(i) ==> i < size.MaxFields()
    {
      i < size.MaxFields() && Bit(bits, i)
    }

    /** `count_set`: the one bits of the whole 16-bit word. */
    function CountSet(): (c: nat)
      reads this
      ensures c == 0 <==> bits == 0
    {
      OnesZero(bits, 16);
      ZeroIffNoBit(bits);
      Ones(bits, 16)
    }

    /** `is_empty`: no bit is set, so nothing is counted. */
    predicate IsEmpty()
      reads this
      ensures IsEmpty() <==> CountSet() == 0
    {
      bits == 0
    }

    /** `iter_set`: the present field indices in ascending order. */
    function IterSet(): (s: seq<nat>)
      reads this
      ensures forall j: nat :: j in s <==> IsSet(j)
      ensures forall a, b :: 0 <= a < b < |s| ==> s[a] < s[b]
    {
      IndicesMembers(bits, size.MaxFields());
      Indices(bits, size.MaxFields())
    }

    /** `set`: marks field i present, or reports Overflow past the size and changes nothing. */
    method Set(i: nat) returns (r: Result<()>)
      modifies this
      ensures i >= size.MaxFields() ==> r == Err(Overflow) && bits == old(bits)
      ensures i < size.MaxFields() ==> r == Ok(()) && bits == old(bits) | Mask(i)
      ensures i < size.MaxFields() ==> forall j: nat :: j < size.MaxFields() ==> (IsSet(j) <==> j == i || old(IsSet(j)))
    {
      if i >= size.MaxFields() {
        return Err(Overflow);
      }
      bits := bits | Mask(i);
      SetBits(old(bits), i);
      return Ok(());
    }

    /** `clear`: marks field i absent, or reports Overflow past the size and changes nothing. */
    method Clear(i: nat) returns (r: Result<()>)
      modifies this
      ensures i >= size.MaxFields() ==> r == Err(Overflow) && bits == old(bits)
      ensures i < size.MaxFields() ==> r == Ok(()) && bits == old(bits) & !Mask(i)
      ensures i < size.MaxFields() ==> forall j: nat :: j < size.MaxFields() ==> (IsSet(j) <==> j != i && old(IsSet(j)))
    {
      if i >= size.MaxFields() {
        return Err(Overflow);
      }
      bits := bits & !Mask(i);
      forall j: nat | j < size.MaxFields()
        ensures IsSet(j) <==> j != i && old(IsSet(j))
      {
        ClearBit(old(bits), i, j);
      }
      return Ok(());
    }

    /** `encode`: writes EncodedBits at the front of buf, or reports ShortBuffer and writes nothing. */
    method Encode(buf: array<byte>) returns (r: Result<nat>)
      modifies buf
      ensures buf.Length < size.Bytes() ==> r == Err(ShortBuffer) && buf[..] == old(buf[..])
      ensures buf.Length >= size.Bytes() ==>
        r == Ok(size.Bytes()) && buf[..] == Splice(old(buf[..]), 0, EncodedBits(bits, size))
    {
      match size
      case U8 =>
        if buf.Length == 0 {
          return Err(ShortBuffer);
        }
        // `buf[0] = self.bits as u8`: the low byte
        WriteBytes(buf, 0, [(bits as int) % 0x100]);
        return Ok(1);
      case U16 =>
        if buf.Length < 2 {
          return Err(ShortBuffer);
        }
        WriteBytes(buf, 0, LeBytes(bits as int, 2));
        return Ok(2);
    }

    /** `decode`: a new bitmap over the bits at the front of buf, and the bytes taken. */
    static method Decode(buf: seq<byte>, size: BitmapSize) returns (r: Result<(PresenceBitmap, nat)>)
      ensures DecodedBits(buf, size).Err? ==> r == Err(DecodedBits(buf, size).error)
      ensures DecodedBits(buf, size).Ok? ==>
        && r.Ok? && fresh(r.value.0)
        && r.value.0.bits == DecodedBits(buf, size).value.0 && r.value.0.size == size
        && r.value.1 == DecodedBits(buf, size).value.1
    {
      if size == U8 {
        if |buf| == 0 {
          return Err(UnexpectedEof);
        }
        var bitmap := new PresenceBitmap.FromBits(buf[0] as bv16, size);
        return Ok((bitmap, 1));
      } else {
        if |buf| < 2 {
          return Err(UnexpectedEof);
        }
        var bitmap := new PresenceBitmap.FromBits((buf[0] as int + 0x100 * buf[1] as int) as bv16, size);
        return Ok((bitmap, 2));
      }
    }
  }

  /** `iter_set` and `count_set` agree when no bit lies past the size. */
  lemma IterSetCount(b: PresenceBitmap)
    requires b.size == U16 || b.bits < 0x100
    ensures |b.IterSet()| == b.CountSet()
  {
    IndicesMembers(b.bits, b.size.MaxFields());
    if b.size == U8 {
      OnesHigh(b.bits);
    }
  }

  lemma HighBitsClear(bits: bv16)
    requires bits < 0x100
    ensures !Bit(bits, 8) && !Bit(bits, 9) && !Bit(bits, 10) && !Bit(bits, 11)
    ensures !Bit(bits, 12) && !Bit(bits, 13) && !Bit(bits, 14) && !Bit(bits, 15)
  {
  }

  lemma OnesHigh(bits: bv16)
    requires bits < 0x100
    ensures Ones(bits, 16) == Ones(bits, 8)
  {
    HighBitsClear(bits);
    assert Ones(bits, 9) == Ones(bits, 8);
    assert Ones(bits, 10) == Ones(bits, 9);
    assert Ones(bits, 11) == Ones(bits, 10);
    assert Ones(bits, 12) == Ones(bits, 11);
    assert Ones(bits, 13) == Ones(bits, 12);
    assert Ones(bits, 14) == Ones(bits, 13);
    assert Ones(bits, 15) == Ones(bits, 14);
  }

  /** `BitmapBuilder`: a bitmap under construction, set field by field. */
  class BitmapBuilder {
    const bitmap: PresenceBitmap

    constructor New(size: BitmapSize)
      ensures fresh(bitmap) && bitmap.bits == 0 && bitmap.size == size
    {
      bitmap := new PresenceBitmap.New(size);
    }

    /** `with_field`: sets field i and hands the builder back, or reports Overflow. */
    method WithField(i: nat) returns (r: Result<BitmapBuilder>)
      modifies bitmap
      ensures i >= bitmap.size.MaxFields() ==> r == Err(Overflow) && bitmap.bits == old(bitmap.bits)
      ensures i < bitmap.size.MaxFields() ==> r == Ok(this) && bitmap.bits == old(bitmap.bits) | Mask(i)
      ensures i < bitmap.size.MaxFields() ==> forall j :: bitmap.IsSet(j) <==> j == i || old(bitmap.IsSet(j))
    {
      var _ :- bitmap.Set(i);
      return Ok(this);
    }

    /** `build`: the builder's own bitmap, with every field set so far. */
    function Build(): (b: PresenceBitmap)
      ensures b == bitmap
    {
      bitmap
    }
  }
}
