/**
 * Fixed-width integers and their little-endian byte forms (Rust's `to_le_bytes`,
 * `from_le_bytes` and `as` casts), plus the in-place copy `copy_from_slice`.
 */
module Bytes {

  type byte = x: int | 0 <= x < 0x100
  type u16 = x: int | 0 <= x < 0x1_0000
  type u32 = x: int | 0 <= x < 0x1_0000_0000
  type u64 = x: int | 0 <= x < 0x1_0000_0000_0000_0000
  type i32 = x: int | -0x8000_0000 <= x < 0x8000_0000
  type i64 = x: int | -0x8000_0000_0000_0000 <= x < 0x8000_0000_0000_0000

  /** A byte read as eight bits (`u8` to a bit set) converts back to the same byte. */
  lemma ByteAsBits(b: int)
    requires 0 <= b < 0x100
    ensures (b as bv8) as int == b
  {
    // Sixteen ranges of sixteen values: on a small range the conversion is direct.
    if b < 16 {
      assert (b as bv8) as int == b;
    } else if b < 32 {
      assert (b as bv8) as int == b;
    } else if b < 48 {
      assert (b as bv8) as int == b;
    } else if b < 64 {
      assert (b as bv8) as int == b;
    } else if b < 80 {
      assert (b as bv8) as int == b;
    } else if b < 96 {
      assert (b as bv8) as int == b;
    } else if b < 112 {
      assert (b as bv8) as int == b;
    } else if b < 128 {
      assert (b as bv8) as int == b;
    } else if b < 144 {
      assert (b as bv8) as int == b;
    } else if b < 160 {
      assert (b as bv8) as int == b;
    } else if b < 176 {
      assert (b as bv8) as int == b;
    } else if b < 192 {
      assert (b as bv8) as int == b;
    } else if b < 208 {
      assert (b as bv8) as int == b;
    } else if b < 224 {
      assert (b as bv8) as int == b;
    } else if b < 240 {
      assert (b as bv8) as int == b;
    } else {
      assert (b as bv8) as int == b;
    }
  }

  function Pow2(n: nat): (r: nat)
    ensures r >= 1
  {
    if n == 0 then 1 else 2 * Pow2(n - 1)
  }

  function Pow256(n: nat): (r: nat)
    ensures r >= 1
  {
    if n == 0 then 1 else 0x100 * Pow256(n - 1)
  }

  /** The limits of u16, u32 and u64. */
  lemma Pow256Widths()
    ensures Pow256(2) == 0x1_0000 && Pow256(4) == 0x1_0000_0000
    ensures Pow256(8) == 0x1_0000_0000_0000_0000
  {
  }

  /** The w low-order bytes of v, least significant first: `(v as uN).to_le_bytes()`. */
  function LeBytes(v: nat, w: nat): (r: seq<byte>)
    ensures |r| == w
  {
    if w == 0 then [] else [v % 0x100] + LeBytes(v / 0x100, w - 1)
  }

  /** The unsigned value of s read little-endian: `uN::from_le_bytes`. */
  function LeValue(s: seq<byte>): (r: nat)
    ensures r < Pow256(|s|)
  {
    if s == [] then 0 else s[0] + 0x100 * LeValue(s[1..])
  }

  lemma {:induction false} LeValueOfLeBytes(v: nat, w: nat)
    requires v < Pow256(w)
    ensures LeValue(LeBytes(v, w)) == v
  {
    if w > 0 {
      LeValueOfLeBytes(v / 0x100, w - 1);
      assert LeBytes(v, w)[1..] == LeBytes(v / 0x100, w - 1);
    }
  }

  lemma {:induction false} LeBytesOfLeValue(s: seq<byte>)
    ensures LeBytes(LeValue(s), |s|) == s
  {
    if s != [] {
      LeBytesOfLeValue(s[1..]);
      assert (s[0] + 0x100 * LeValue(s[1..])) / 0x100 == LeValue(s[1..]);
    }
  }

  /** `value as u64` for an i64: two's complement bits. */
  function I64Bits(v: i64): (r: u64)
    ensures r < 0x8000_0000_0000_0000 <==> v >= 0
  {
    if v < 0 then v + 0x1_0000_0000_0000_0000 else v
  }

  /** Two different byte strings of one width read as different values. */
  lemma LeValueInjective(s: seq<byte>, t: seq<byte>)
    requires |s| == |t| && s != t
    ensures LeValue(s) != LeValue(t)
  {
    LeBytesOfLeValue(s);
    LeBytesOfLeValue(t);
  }

  /** `value as i64` for a u64. */
  function AsI64(u: u64): (r: i64)
    ensures I64Bits(r) == u
  {
    if u >= 0x8000_0000_0000_0000 then u - 0x1_0000_0000_0000_0000 else u
  }

  /** `value as u32` for an i32. */
  function I32Bits(v: i32): (r: u32)
    ensures r < 0x8000_0000 <==> v >= 0
  {
    if v < 0 then v + 0x1_0000_0000 else v
  }

  /** `value as i32` for a u32. */
  function AsI32(u: u32): (r: i32)
    ensures I32Bits(r) == u
  {
    if u >= 0x8000_0000 then u - 0x1_0000_0000 else u
  }

  lemma I64BitsRoundTrip(v: i64)
    ensures AsI64(I64Bits(v)) == v
  {
  }

  lemma I32BitsRoundTrip(v: i32)
    ensures AsI32(I32Bits(v)) == v
  {
  }

  /** s with w written over it from index at on. */
  function Splice(s: seq<byte>, at: nat, w: seq<byte>): (r: seq<byte>)
    requires at + |w| <= |s|
    ensures |r| == |s|
    ensures r[at..at + |w|] == w
    ensures r[..at] == s[..at] && r[at + |w|..] == s[at + |w|..]
  {
    s[..at] + w + s[at + |w|..]
  }

  /** Two adjacent writes are one write of both. */
  lemma SpliceSplice(s: seq<byte>, at: nat, a: seq<byte>, b: seq<byte>)
    requires at + |a| + |b| <= |s|
    ensures Splice(Splice(s, at, a), at + |a|, b) == Splice(s, at, a + b)
  {
    var l := Splice(Splice(s, at, a), at + |a|, b);
    var r := Splice(s, at, a + b);
    assert forall k :: 0 <= k < |s| ==> l[k] == r[k];
  }

  /** A write at the end of the window [from, at) extends the window by exactly what was written. */
  lemma SpliceExtends(s: seq<byte>, from: nat, at: nat, w: seq<byte>)
    requires from <= at && at + |w| <= |s|
    ensures Splice(s, at, w)[from..at + |w|] == s[from..at] + w
    ensures Splice(s, at, w)[..from] == s[..from]
  {
  }

  /** A write inside the window [from, to) is the same write made to the window alone. */
  lemma SpliceWindow(s: seq<byte>, from: nat, to: nat, at: nat, w: seq<byte>)
    requires from <= at && at + |w| <= to <= |s|
    ensures Splice(s, at, w)[from..to] == Splice(s[from..to], at - from, w)
  {
    var l := Splice(s, at, w)[from..to];
    var r := Splice(s[from..to], at - from, w);
    assert forall k :: 0 <= k < to - from ==> l[k] == r[k];
  }

  /** A write at the end of the prefix front extends it by exactly what was written; past the write nothing changes. */
  lemma SpliceFront(s: seq<byte>, at: nat, w: seq<byte>, out: seq<byte>, front: seq<byte>)
    requires at + |w| <= |s| && out == Splice(s, at, w) && front == s[0..at]
    ensures out[..at + |w|] == front + w
    ensures out[at + |w|..] == s[at + |w|..]
  {
    assert out[..at + |w|] == out[..at] + out[at..at + |w|];
  }

  /** Every suffix past a write is untouched by it. */
  lemma SpliceTail(s: seq<byte>, at: nat, w: seq<byte>, from: nat)
    requires at + |w| <= from <= |s|
    ensures Splice(s, at, w)[from..] == s[from..]
  {
    var r := Splice(s, at, w);
    assert forall k :: from <= k < |s| ==> r[k] == s[k];
  }

  /** `buf[at..at + w.len()].copy_from_slice(w)`. */
  method WriteBytes(buf: array<byte>, at: nat, w: seq<byte>)
    requires at + |w| <= buf.Length
    modifies buf
    ensures buf[..] == Splice(old(buf[..]), at, w)
  {
    for i := 0 to |w|
      invariant forall k :: 0 <= k < buf.Length ==>
        buf[k] == (if at <= k < at + i then w[k - at] else old(buf[k]))
    {
      buf[at + i] := w[i];
    }
    assert buf[..] == Splice(old(buf[..]), at, w);
  }
}
