/**
 * CRC-32C (Castagnoli), the checksum of section 12.1 of RFC 3720: the
 * reflected CRC with polynomial 0x82F63B78, initial value 0xFFFFFFFF and a
 * final complement, computed a byte at a time through a 256-entry table.
 */
module Crc32c {
  import opened Bytes

  const CRC32C_POLYNOMIAL: bv32 := 0x82F63B78

  /** One bit of the reflected shift register. */
  function Round(c: bv32): bv32
  {
    if c & 1 != 0 then (c >> 1) ^ CRC32C_POLYNOMIAL else c >> 1
  }

  /** n rounds of the shift register. */
  function Rounds(c: bv32, n: nat): bv32
  {
    if n == 0 then c else Round(Rounds(c, n - 1))
  }

  /** Entry i of the lookup table: i put through eight rounds. */
  function TableEntry(i: nat): bv32
    requires i < 256
  {
    Rounds(i as bv32, 8)
  }

  /** `CRC32C_TABLE`, the static table the software path reads. */
  function Table(): (t: seq<bv32>)
    ensures |t| == 256
  {
    seq(256, i requires 0 <= i < 256 => TableEntry(i))
  }

  /** `((crc ^ byte as u32) & 0xFF) as usize`: the low byte of the register with the data byte XORed in. */
  function Index(crc: bv32, b: byte): (k: nat)
    ensures k < 256
  {
    ((crc ^ (b as bv8 as bv32)) & 0xFF) as bv8 as int
  }

  /** The table-driven step for one byte: `(crc >> 8) ^ CRC32C_TABLE[table_idx]`. */
  function Update(crc: bv32, b: byte): bv32
  {
    (crc >> 8) ^ Table()[Index(crc, b)]
  }

  /** The accumulator after feeding data, one byte after the other, into crc. */
  function Fold(crc: bv32, data: seq<byte>): bv32
  {
    if data == [] then crc else Update(Fold(crc, data[..|data| - 1]), data[|data| - 1])
  }

  /** The CRC-32C of data. */
  function Checksum(data: seq<byte>): bv32
  {
    !Fold(0xFFFF_FFFF, data)
  }

  // ---------------------------------------------------------------------------
  // The table and the per-byte step

  /** The inner loop of `generate_crc32c_table`: eight rounds of the register. */
  method EightRounds(start: bv32) returns (crc: bv32)
    ensures crc == Rounds(start, 8)
  {
    crc := start;
    var j := 0;
    while j < 8
      invariant 0 <= j <= 8
      invariant crc == Rounds(start, j)
    {
      if crc & 1 != 0 {
        crc := (crc >> 1) ^ CRC32C_POLYNOMIAL;
      } else {
        crc := crc >> 1;
      }
      j := j + 1;
    }
  }

  /** `generate_crc32c_table`: entry i holds eight rounds of i. */
  method GenerateTable() returns (table: array<bv32>)
    ensures fresh(table)
    ensures table.Length == 256
    ensures forall i :: 0 <= i < 256 ==> table[i] == Rounds(i as bv32, 8)
    ensures table[..] == Table()
  {
    table := new bv32[256](_ => 0);
    var i := 0;
    while i < 256
      invariant 0 <= i <= 256
      invariant forall k :: 0 <= k < i ==> table[k] == Rounds(k as bv32, 8)
    {
      var crc := EightRounds(i as bv32);
      table[i] := crc;
      i := i + 1;
    }
    assert forall k :: 0 <= k < 256 ==> table[k] == Table()[k];
  }

  /** Feeding a ++ b is feeding b from where a left the accumulator. */
  lemma {:induction false} FoldAppend(crc: bv32, a: seq<byte>, b: seq<byte>)
    ensures Fold(crc, a + b) == Fold(Fold(crc, a), b)
    decreases |b|
  {
    if b != [] {
      assert (a + b)[..|a + b| - 1] == a + b[..|b| - 1];
      assert (a + b)[|a + b| - 1] == b[|b| - 1];
      FoldAppend(crc, a, b[..|b| - 1]);
    } else {
      assert a + b == a;
    }
  }

  lemma FoldStep(crc: bv32, data: seq<byte>, i: nat)
    requires i < |data|
    ensures Fold(crc, data[..i + 1]) == Update(Fold(crc, data[..i]), data[i])
  {
    assert data[..i + 1][..i] == data[..i];
  }

  // ---------------------------------------------------------------------------
  // Checksums

  /** `crc32c_sw`: the table-driven loop from 0xFFFFFFFF, complemented at the end. */
  method Crc32cSw(data: seq<byte>) returns (crc: bv32)
    ensures crc == Checksum(data)
  {
    var acc: bv32 := 0xFFFF_FFFF;
    for i := 0 to |data|
      invariant acc == Fold(0xFFFF_FFFF, data[..i])
    {
      FoldStep(0xFFFF_FFFF, data, i);
      acc := Update(acc, data[i]);
    }
    assert data[..|data|] == data;
    crc := !acc;
  }

  /**
   * `crc32c`. minibit first asks the CPU for a CRC instruction; both
   * accelerated routines compute the software result, so this is the
   * software path.
   */
  method Crc32c(data: seq<byte>) returns (crc: u32)
    ensures crc == ChecksumValue(data)
  {
    var c := Crc32cSw(data);
    ChecksumValueIsChecksum(data);
    crc := c as int;
  }

  /** `verify_crc32c`. */
  method VerifyCrc32c(data: seq<byte>, expected: u32) returns (ok: bool)
    ensures ok <==> ChecksumValue(data) == expected
  {
    var crc := Crc32c(data);
    ok := crc == expected;
  }

  /**
   * The shift register after feeding data from 0xFFFFFFFF, built byte by
   * byte: Step takes the register after a prefix to the register after the
   * prefix and one more byte. RegisterIsFold shows it is Fold. The frame
   * proofs state the trailer through this form rather than through Fold:
   * the pair of functions unfolds one byte at a time, while Fold over the
   * slices of a frame makes those proofs several times more expensive.
   */
  function Register(data: seq<byte>): (c: bv32)
    decreases |data|, 1
  {
    if data == [] then 0xFFFF_FFFF else Step(data[..|data| - 1], data[|data| - 1])
  }

  /** The register after prefix + [b]. */
  function Step(prefix: seq<byte>, b: byte): (c: bv32)
    decreases |prefix| + 1, 0
  {
    Update(Register(prefix), b)
  }

  /** The checksum as the u32 `crc32c` returns and the frame trailer stores. */
  function ChecksumValue(data: seq<byte>): (v: u32)
  {
    (!Register(data)) as int
  }

  /** Register is the table-driven fold from 0xFFFFFFFF. */
  lemma {:induction false} RegisterIsFold(data: seq<byte>)
    ensures Register(data) == Fold(0xFFFF_FFFF, data)
    decreases |data|
  {
    if data != [] {
      RegisterIsFold(data[..|data| - 1]);
    }
  }

  /** ChecksumValue is Checksum read as an unsigned number. */
  lemma ChecksumValueIsChecksum(data: seq<byte>)
    ensures ChecksumValue(data) == Checksum(data) as int
  {
    RegisterIsFold(data);
    assert !Register(data) == Checksum(data);
  }

  // ---------------------------------------------------------------------------
  // Known values

  /** The empty input leaves the initial value, whose complement is 0. */
  lemma ChecksumEmpty()
    ensures Checksum([]) == 0
  {
  }

  /** The first table entries of the Castagnoli polynomial. */
  lemma TableKnownEntries()
    ensures Table()[0] == 0
    ensures Table()[1] == 0xF26B_8303
    ensures Table()[128] == 0x82F6_3B78
    ensures Table()[255] == 0xAD7D_5351
  {
    assert Table()[1] == Rounds(1, 8);
    assert Table()[128] == Rounds(128, 8);
    assert Table()[255] == Rounds(255, 8);
  }

  /** A fold is determined by the register values it passes through, one step per byte. */
  lemma {:induction false} FoldFromStates(crc: bv32, data: seq<byte>, states: seq<bv32>)
    requires |states| == |data| + 1 && states[0] == crc
    requires forall k :: 0 <= k < |data| ==> Update(states[k], data[k]) == states[k + 1]
    ensures Fold(crc, data) == states[|data|]
    decreases |data|
  {
    if data != [] {
      var n := |data| - 1;
      FoldFromStates(crc, data[..n], states[..n + 1]);
    }
  }

  /** The customary check value of CRC-32C: the digits "123456789" give 0xE3069283. */
  lemma DigitsCheck()
    ensures Checksum(DigitsBytes()) == 0xE3069283
  {
    DigitsFold();
  }

  /** The ASCII bytes of "123456789". */
  function DigitsBytes(): (d: seq<byte>)
    ensures |d| == 9
  {
    [49, 50, 51, 52, 53, 54, 55, 56, 57]
  }

  /** The register after each byte of DigitsBytes(), from 0xFFFFFFFF. */
  function DigitsStates(): (s: seq<bv32>)
    ensures |s| == 10
  {
    [0xFFFFFFFF, 0x6F0A661C, 0x8CAA3B9F, 0xEF84D04D, 0x09C50B11, 0xE72EDCCA, 0xBECA8E79, 0xEDBD6815, 0x9F787F65, 0x1CF96D7C]
  }

  lemma DigitsFold()
    ensures Fold(0xFFFFFFFF, DigitsBytes()) == 0x1CF96D7C
  {
    var d, s := DigitsBytes(), DigitsStates();
    DigitsChain0();
    DigitsChain1();
    DigitsChain2();
    FoldFromStates(0xFFFFFFFF, d, s);
  }

  lemma DigitsChain0()
    ensures forall k :: 0 <= k < 3 ==> Update(DigitsStates()[k], DigitsBytes()[k]) == DigitsStates()[k + 1]
  {
    DigitsStep0();
    DigitsStep1();
    DigitsStep2();
  }

  lemma DigitsChain1()
    ensures forall k :: 3 <= k < 6 ==> Update(DigitsStates()[k], DigitsBytes()[k]) == DigitsStates()[k + 1]
  {
    DigitsStep3();
    DigitsStep4();
    DigitsStep5();
  }

  lemma DigitsChain2()
    ensures forall k :: 6 <= k < 9 ==> Update(DigitsStates()[k], DigitsBytes()[k]) == DigitsStates()[k + 1]
  {
    DigitsStep6();
    DigitsStep7();
    DigitsStep8();
  }

  lemma DigitsStep0()
    ensures Update(0xFFFFFFFF, 49) == 0x6F0A661C
  {
    assert Index(0xFFFFFFFF, 49) == 206 && Table()[206] == Rounds(206, 8);
  }

  lemma DigitsStep1()
    ensures Update(0x6F0A661C, 50) == 0x8CAA3B9F
  {
    assert Index(0x6F0A661C, 50) == 46 && Table()[46] == Rounds(46, 8);
  }

  lemma DigitsStep2()
    ensures Update(0x8CAA3B9F, 51) == 0xEF84D04D
  {
    assert Index(0x8CAA3B9F, 51) == 172 && Table()[172] == Rounds(172, 8);
  }

  lemma DigitsStep3()
    ensures Update(0xEF84D04D, 52) == 0x09C50B11
  {
    assert Index(0xEF84D04D, 52) == 121 && Table()[121] == Rounds(121, 8);
  }

  lemma DigitsStep4()
    ensures Update(0x09C50B11, 53) == 0xE72EDCCA
  {
    assert Index(0x09C50B11, 53) == 36 && Table()[36] == Rounds(36, 8);
  }

  lemma DigitsStep5()
    ensures Update(0xE72EDCCA, 54) == 0xBECA8E79
  {
    assert Index(0xE72EDCCA, 54) == 252 && Table()[252] == Rounds(252, 8);
  }

  lemma DigitsStep6()
    ensures Update(0xBECA8E79, 55) == 0xEDBD6815
  {
    assert Index(0xBECA8E79, 55) == 78 && Table()[78] == Rounds(78, 8);
  }

  lemma DigitsStep7()
    ensures Update(0xEDBD6815, 56) == 0x9F787F65
  {
    assert Index(0xEDBD6815, 56) == 45 && Table()[45] == Rounds(45, 8);
  }

  lemma DigitsStep8()
    ensures Update(0x9F787F65, 57) == 0x1CF96D7C
  {
    assert Index(0x9F787F65, 57) == 92 && Table()[92] == Rounds(92, 8);
  }

  /** The second vector minibit's tests use: "The quick brown fox jumps over the lazy dog" gives 0x22620404. */
  lemma FoxCheck()
    ensures Checksum(FoxBytes()) == 0x22620404
  {
    FoxFold();
  }

  /** The ASCII bytes of "The quick brown fox jumps over the lazy dog". */
  function FoxBytes(): (d: seq<byte>)
    ensures |d| == 43
  {
    [84, 104, 101, 32, 113, 117, 105, 99, 107, 32, 98, 114, 111, 119, 110, 32, 102, 111, 120, 32, 106, 117, 109, 112, 115, 32, 111, 118, 101, 114, 32, 116, 104, 101, 32, 108, 97, 122, 121, 32, 100, 111, 103]
  }

  /** The register after each byte of FoxBytes(), from 0xFFFFFFFF. */
  function FoxStates(): (s: seq<bv32>)
    ensures |s| == 44
  {
    [0xFFFFFFFF, 0x3B3DE162, 0x6BD915D9, 0xFF3D640C, 0x6D017C6A, 0x89BA6D28, 0xEE842C6D, 0xC7741333, 0x51E2AEC0, 0x3B93FC33, 0x0335A767, 0x35F221BB, 0xBB0A0F29, 0x6761F05B, 0x6D9920FE, 0x92C56537, 0xC40666E1, 0x56F859F5, 0xF91C2C76, 0xAC81A30B, 0xB998A446, 0x6D47D9AA, 0x8DAD9A56, 0xA9E74F10, 0x616F742D, 0xFD3C0A80, 0xA2B689AC, 0xD07F63B9, 0x9D4E6583, 0xC50C0197, 0xD604B007, 0xF4A1EE85, 0x01F14D98, 0xF36F9E38, 0xEEFEF99E, 0x1E833317, 0xE80F7C05, 0xA6B40B01, 0xE8B74B3D, 0x86093DE8, 0x49D27736, 0xB0577853, 0x7D10D119, 0xDD9DFBFB]
  }

  lemma FoxFold()
    ensures Fold(0xFFFFFFFF, FoxBytes()) == 0xDD9DFBFB
  {
    var d, s := FoxBytes(), FoxStates();
    FoxChain0();
    FoxChain1();
    FoxChain2();
    FoxChain3();
    FoxChain4();
    FoxChain5();
    FoxChain6();
    FoxChain7();
    FoxChain8();
    FoxChain9();
    FoxChain10();
    FoxChain11();
    FoxChain12();
    FoxChain13();
    FoxChain14();
    FoldFromStates(0xFFFFFFFF, d, s);
  }

  lemma FoxChain0()
    ensures forall k :: 0 <= k < 3 ==> Update(FoxStates()[k], FoxBytes()[k]) == FoxStates()[k + 1]
  {
    FoxStep0();
    FoxStep1();
    FoxStep2();
  }

  lemma FoxChain1()
    ensures forall k :: 3 <= k < 6 ==> Update(FoxStates()[k], FoxBytes()[k]) == FoxStates()[k + 1]
  {
    FoxStep3();
    FoxStep4();
    FoxStep5();
  }

  lemma FoxChain2()
    ensures forall k :: 6 <= k < 9 ==> Update(FoxStates()[k], FoxBytes()[k]) == FoxStates()[k + 1]
  {
    FoxStep6();
    FoxStep7();
    FoxStep8();
  }

  lemma FoxChain3()
    ensures forall k :: 9 <= k < 12 ==> Update(FoxStates()[k], FoxBytes()[k]) == FoxStates()[k + 1]
  {
    FoxStep9();
    FoxStep10();
    FoxStep11();
  }

  lemma FoxChain4()
    ensures forall k :: 12 <= k < 15 ==> Update(FoxStates()[k], FoxBytes()[k]) == FoxStates()[k + 1]
  {
    FoxStep12();
    FoxStep13();
    FoxStep14();
  }

  lemma FoxChain5()
    ensures forall k :: 15 <= k < 18 ==> Update(FoxStates()[k], FoxBytes()[k]) == FoxStates()[k + 1]
  {
    FoxStep15();
    FoxStep16();
    FoxStep17();
  }

  lemma FoxChain6()
    ensures forall k :: 18 <= k < 21 ==> Update(FoxStates()[k], FoxBytes()[k]) == FoxStates()[k + 1]
  {
    FoxStep18();
    FoxStep19();
    FoxStep20();
  }

  lemma FoxChain7()
    ensures forall k :: 21 <= k < 24 ==> Update(FoxStates()[k], FoxBytes()[k]) == FoxStates()[k + 1]
  {
    FoxStep21();
    FoxStep22();
    FoxStep23();
  }

  lemma FoxChain8()
    ensures forall k :: 24 <= k < 27 ==> Update(FoxStates()[k], FoxBytes()[k]) == FoxStates()[k + 1]
  {
    FoxStep24();
    FoxStep25();
    FoxStep26();
  }

  lemma FoxChain9()
    ensures forall k :: 27 <= k < 30 ==> Update(FoxStates()[k], FoxBytes()[k]) == FoxStates()[k + 1]
  {
    FoxStep27();
    FoxStep28();
    FoxStep29();
  }

  lemma FoxChain10()
    ensures forall k :: 30 <= k < 33 ==> Update(FoxStates()[k], FoxBytes()[k]) == FoxStates()[k + 1]
  {
    FoxStep30();
    FoxStep31();
    FoxStep32();
  }

  lemma FoxChain11()
    ensures forall k :: 33 <= k < 36 ==> Update(FoxStates()[k], FoxBytes()[k]) == FoxStates()[k + 1]
  {
    FoxStep33();
    FoxStep34();
    FoxStep35();
  }

  lemma FoxChain12()
    ensures forall k :: 36 <= k < 39 ==> Update(FoxStates()[k], FoxBytes()[k]) == FoxStates()[k + 1]
  {
    FoxStep36();
    FoxStep37();
    FoxStep38();
  }

  lemma FoxChain13()
    ensures forall k :: 39 <= k < 42 ==> Update(FoxStates()[k], FoxBytes()[k]) == FoxStates()[k + 1]
  {
    FoxStep39();
    FoxStep40();
    FoxStep41();
  }

  lemma FoxChain14()
    ensures forall k :: 42 <= k < 43 ==> Update(FoxStates()[k], FoxBytes()[k]) == FoxStates()[k + 1]
  {
    FoxStep42();
  }

  lemma FoxStep0()
    ensures Update(0xFFFFFFFF, 84) == 0x3B3DE162
  {
    assert Index(0xFFFFFFFF, 84) == 171 && Table()[171] == Rounds(171, 8);
  }

  lemma FoxStep1()
    ensures Update(0x3B3DE162, 104) == 0x6BD915D9
  {
    assert Index(0x3B3DE162, 104) == 10 && Table()[10] == Rounds(10, 8);
  }

  lemma FoxStep2()
    ensures Update(0x6BD915D9, 101) == 0xFF3D640C
  {
    assert Index(0x6BD915D9, 101) == 188 && Table()[188] == Rounds(188, 8);
  }

  lemma FoxStep3()
    ensures Update(0xFF3D640C, 32) == 0x6D017C6A
  {
    assert Index(0xFF3D640C, 32) == 44 && Table()[44] == Rounds(44, 8);
  }

  lemma FoxStep4()
    ensures Update(0x6D017C6A, 113) == 0x89BA6D28
  {
    assert Index(0x6D017C6A, 113) == 27 && Table()[27] == Rounds(27, 8);
  }

  lemma FoxStep5()
    ensures Update(0x89BA6D28, 117) == 0xEE842C6D
  {
    assert Index(0x89BA6D28, 117) == 93 && Table()[93] == Rounds(93, 8);
  }

  lemma FoxStep6()
    ensures Update(0xEE842C6D, 105) == 0xC7741333
  {
    assert Index(0xEE842C6D, 105) == 4 && Table()[4] == Rounds(4, 8);
  }

  lemma FoxStep7()
    ensures Update(0xC7741333, 99) == 0x51E2AEC0
  {
    assert Index(0xC7741333, 99) == 80 && Table()[80] == Rounds(80, 8);
  }

  lemma FoxStep8()
    ensures Update(0x51E2AEC0, 107) == 0x3B93FC33
  {
    assert Index(0x51E2AEC0, 107) == 171 && Table()[171] == Rounds(171, 8);
  }

  lemma FoxStep9()
    ensures Update(0x3B93FC33, 32) == 0x0335A767
  {
    assert Index(0x3B93FC33, 32) == 19 && Table()[19] == Rounds(19, 8);
  }

  lemma FoxStep10()
    ensures Update(0x0335A767, 98) == 0x35F221BB
  {
    assert Index(0x0335A767, 98) == 5 && Table()[5] == Rounds(5, 8);
  }

  lemma FoxStep11()
    ensures Update(0x35F221BB, 114) == 0xBB0A0F29
  {
    assert Index(0x35F221BB, 114) == 201 && Table()[201] == Rounds(201, 8);
  }

  lemma FoxStep12()
    ensures Update(0xBB0A0F29, 111) == 0x6761F05B
  {
    assert Index(0xBB0A0F29, 111) == 70 && Table()[70] == Rounds(70, 8);
  }

  lemma FoxStep13()
    ensures Update(0x6761F05B, 119) == 0x6D9920FE
  {
    assert Index(0x6761F05B, 119) == 44 && Table()[44] == Rounds(44, 8);
  }

  lemma FoxStep14()
    ensures Update(0x6D9920FE, 110) == 0x92C56537
  {
    assert Index(0x6D9920FE, 110) == 144 && Table()[144] == Rounds(144, 8);
  }

  lemma FoxStep15()
    ensures Update(0x92C56537, 32) == 0xC40666E1
  {
    assert Index(0x92C56537, 32) == 23 && Table()[23] == Rounds(23, 8);
  }

  lemma FoxStep16()
    ensures Update(0xC40666E1, 102) == 0x56F859F5
  {
    assert Index(0xC40666E1, 102) == 135 && Table()[135] == Rounds(135, 8);
  }

  lemma FoxStep17()
    ensures Update(0x56F859F5, 111) == 0xF91C2C76
  {
    assert Index(0x56F859F5, 111) == 154 && Table()[154] == Rounds(154, 8);
  }

  lemma FoxStep18()
    ensures Update(0xF91C2C76, 120) == 0xAC81A30B
  {
    assert Index(0xF91C2C76, 120) == 14 && Table()[14] == Rounds(14, 8);
  }

  lemma FoxStep19()
    ensures Update(0xAC81A30B, 32) == 0xB998A446
  {
    assert Index(0xAC81A30B, 32) == 43 && Table()[43] == Rounds(43, 8);
  }

  lemma FoxStep20()
    ensures Update(0xB998A446, 106) == 0x6D47D9AA
  {
    assert Index(0xB998A446, 106) == 44 && Table()[44] == Rounds(44, 8);
  }

  lemma FoxStep21()
    ensures Update(0x6D47D9AA, 117) == 0x8DAD9A56
  {
    assert Index(0x6D47D9AA, 117) == 223 && Table()[223] == Rounds(223, 8);
  }

  lemma FoxStep22()
    ensures Update(0x8DAD9A56, 109) == 0xA9E74F10
  {
    assert Index(0x8DAD9A56, 109) == 59 && Table()[59] == Rounds(59, 8);
  }

  lemma FoxStep23()
    ensures Update(0xA9E74F10, 112) == 0x616F742D
  {
    assert Index(0xA9E74F10, 112) == 96 && Table()[96] == Rounds(96, 8);
  }

  lemma FoxStep24()
    ensures Update(0x616F742D, 115) == 0xFD3C0A80
  {
    assert Index(0x616F742D, 115) == 94 && Table()[94] == Rounds(94, 8);
  }

  lemma FoxStep25()
    ensures Update(0xFD3C0A80, 32) == 0xA2B689AC
  {
    assert Index(0xFD3C0A80, 32) == 160 && Table()[160] == Rounds(160, 8);
  }

  lemma FoxStep26()
    ensures Update(0xA2B689AC, 111) == 0xD07F63B9
  {
    assert Index(0xA2B689AC, 111) == 195 && Table()[195] == Rounds(195, 8);
  }

  lemma FoxStep27()
    ensures Update(0xD07F63B9, 118) == 0x9D4E6583
  {
    assert Index(0xD07F63B9, 118) == 207 && Table()[207] == Rounds(207, 8);
  }

  lemma FoxStep28()
    ensures Update(0x9D4E6583, 101) == 0xC50C0197
  {
    assert Index(0x9D4E6583, 101) == 230 && Table()[230] == Rounds(230, 8);
  }

  lemma FoxStep29()
    ensures Update(0xC50C0197, 114) == 0xD604B007
  {
    assert Index(0xC50C0197, 114) == 229 && Table()[229] == Rounds(229, 8);
  }

  lemma FoxStep30()
    ensures Update(0xD604B007, 32) == 0xF4A1EE85
  {
    assert Index(0xD604B007, 32) == 39 && Table()[39] == Rounds(39, 8);
  }

  lemma FoxStep31()
    ensures Update(0xF4A1EE85, 116) == 0x01F14D98
  {
    assert Index(0xF4A1EE85, 116) == 241 && Table()[241] == Rounds(241, 8);
  }

  lemma FoxStep32()
    ensures Update(0x01F14D98, 104) == 0xF36F9E38
  {
    assert Index(0x01F14D98, 104) == 240 && Table()[240] == Rounds(240, 8);
  }

  lemma FoxStep33()
    ensures Update(0xF36F9E38, 101) == 0xEEFEF99E
  {
    assert Index(0xF36F9E38, 101) == 93 && Table()[93] == Rounds(93, 8);
  }

  lemma FoxStep34()
    ensures Update(0xEEFEF99E, 32) == 0x1E833317
  {
    assert Index(0xEEFEF99E, 32) == 190 && Table()[190] == Rounds(190, 8);
  }

  lemma FoxStep35()
    ensures Update(0x1E833317, 108) == 0xE80F7C05
  {
    assert Index(0x1E833317, 108) == 123 && Table()[123] == Rounds(123, 8);
  }

  lemma FoxStep36()
    ensures Update(0xE80F7C05, 97) == 0xA6B40B01
  {
    assert Index(0xE80F7C05, 97) == 100 && Table()[100] == Rounds(100, 8);
  }

  lemma FoxStep37()
    ensures Update(0xA6B40B01, 122) == 0xE8B74B3D
  {
    assert Index(0xA6B40B01, 122) == 123 && Table()[123] == Rounds(123, 8);
  }

  lemma FoxStep38()
    ensures Update(0xE8B74B3D, 121) == 0x86093DE8
  {
    assert Index(0xE8B74B3D, 121) == 68 && Table()[68] == Rounds(68, 8);
  }

  lemma FoxStep39()
    ensures Update(0x86093DE8, 32) == 0x49D27736
  {
    assert Index(0x86093DE8, 32) == 200 && Table()[200] == Rounds(200, 8);
  }

  lemma FoxStep40()
    ensures Update(0x49D27736, 100) == 0xB0577853
  {
    assert Index(0x49D27736, 100) == 82 && Table()[82] == Rounds(82, 8);
  }

  lemma FoxStep41()
    ensures Update(0xB0577853, 111) == 0x7D10D119
  {
    assert Index(0xB0577853, 111) == 60 && Table()[60] == Rounds(60, 8);
  }

  lemma FoxStep42()
    ensures Update(0x7D10D119, 103) == 0xDD9DFBFB
  {
    assert Index(0x7D10D119, 103) == 126 && Table()[126] == Rounds(126, 8);
  }
}
