/**
  The CRC-16 of a Modbus RTU frame (src/modbus/modbus.cc).

  The reference is the bit-by-bit algorithm of MODBUS over Serial Line V1.02, section 6.2.2:
  a 16-bit register starts at 0xFFFF, each byte is XORed into its low half, and eight right
  shifts follow, each XORing 0xA001 in when a one drops out.  The program runs two 256-entry
  tables over two 8-bit halves instead, and keeps the halves swapped.
 */
module Crc16 {

  type byte = bv8

  // ---------- the bit-by-bit reference ----------

  function Xor(a: bv16, b: bv16): bv16 { a ^ b }
  function XorByte(a: byte, b: byte): byte { a ^ b }

  /** One shift of the register: 0xA001 is XORed in exactly when the bit that drops out is one. */
  function Shift1(c: bv16): bv16 {
    Xor(c >> 1, 0xA001 * (c & 1))
  }

  /** `n` shifts. */
  function Shifts(n: nat, c: bv16): bv16 {
    if n == 0 then c else Shift1(Shifts(n - 1, c))
  }

  const BITS: nat := 8

  /** The register after one more byte. */
  function Absorb(c: bv16, b: byte): bv16 {
    Shifts(BITS, Xor(c, b as bv16))
  }

  /** The register after the whole of `f`, from the start value `c`. */
  function Register(c: bv16, f: seq<byte>): bv16 {
    if f == [] then c else Absorb(Register(c, f[..|f| - 1]), f[|f| - 1])
  }

  const START: bv16 := 0xFFFF

  function LowHalf(c: bv16): byte { (c & 0xFF) as byte }
  function HighHalf(c: bv16): byte { (c >> 8) as byte }

  /** The 16-bit value made of two bytes, most significant first. */
  function Pair(h: byte, l: byte): bv16 {
    ((h as bv16) << 8) | (l as bv16)
  }

  /** The CRC of `f` as the program returns it: the reference register with its halves swapped,
      so that the half transmitted first is the most significant one. */
  function CrcOf(f: seq<byte>): bv16 {
    Pair(LowHalf(Register(START, f)), HighHalf(Register(START, f)))
  }

  /** A frame whose last two bytes are the CRC of what precedes them. */
  predicate CarriesCrc(f: seq<byte>)
    requires |f| >= 2
  {
    Pair(f[|f| - 2], f[|f| - 1]) == CrcOf(f[..|f| - 2])
  }

  // ---------- the tables ----------

  // Sixteen rows of sixteen: entry i of the flat table is row i / 16, column i % 16.

  const TABLE_CRC_HI: seq<seq<bv8>> := [
    [0x00, 0xC1, 0x81, 0x40, 0x01, 0xC0, 0x80, 0x41, 0x01, 0xC0, 0x80, 0x41, 0x00, 0xC1, 0x81, 0x40],
    [0x01, 0xC0, 0x80, 0x41, 0x00, 0xC1, 0x81, 0x40, 0x00, 0xC1, 0x81, 0x40, 0x01, 0xC0, 0x80, 0x41],
    [0x01, 0xC0, 0x80, 0x41, 0x00, 0xC1, 0x81, 0x40, 0x00, 0xC1, 0x81, 0x40, 0x01, 0xC0, 0x80, 0x41],
    [0x00, 0xC1, 0x81, 0x40, 0x01, 0xC0, 0x80, 0x41, 0x01, 0xC0, 0x80, 0x41, 0x00, 0xC1, 0x81, 0x40],
    [0x01, 0xC0, 0x80, 0x41, 0x00, 0xC1, 0x81, 0x40, 0x00, 0xC1, 0x81, 0x40, 0x01, 0xC0, 0x80, 0x41],
    [0x00, 0xC1, 0x81, 0x40, 0x01, 0xC0, 0x80, 0x41, 0x01, 0xC0, 0x80, 0x41, 0x00, 0xC1, 0x81, 0x40],
    [0x00, 0xC1, 0x81, 0x40, 0x01, 0xC0, 0x80, 0x41, 0x01, 0xC0, 0x80, 0x41, 0x00, 0xC1, 0x81, 0x40],
    [0x01, 0xC0, 0x80, 0x41, 0x00, 0xC1, 0x81, 0x40, 0x00, 0xC1, 0x81, 0x40, 0x01, 0xC0, 0x80, 0x41],
    [0x01, 0xC0, 0x80, 0x41, 0x00, 0xC1, 0x81, 0x40, 0x00, 0xC1, 0x81, 0x40, 0x01, 0xC0, 0x80, 0x41],
    [0x00, 0xC1, 0x81, 0x40, 0x01, 0xC0, 0x80, 0x41, 0x01, 0xC0, 0x80, 0x41, 0x00, 0xC1, 0x81, 0x40],
    [0x00, 0xC1, 0x81, 0x40, 0x01, 0xC0, 0x80, 0x41, 0x01, 0xC0, 0x80, 0x41, 0x00, 0xC1, 0x81, 0x40],
    [0x01, 0xC0, 0x80, 0x41, 0x00, 0xC1, 0x81, 0x40, 0x00, 0xC1, 0x81, 0x40, 0x01, 0xC0, 0x80, 0x41],
    [0x00, 0xC1, 0x81, 0x40, 0x01, 0xC0, 0x80, 0x41, 0x01, 0xC0, 0x80, 0x41, 0x00, 0xC1, 0x81, 0x40],
    [0x01, 0xC0, 0x80, 0x41, 0x00, 0xC1, 0x81, 0x40, 0x00, 0xC1, 0x81, 0x40, 0x01, 0xC0, 0x80, 0x41],
    [0x01, 0xC0, 0x80, 0x41, 0x00, 0xC1, 0x81, 0x40, 0x00, 0xC1, 0x81, 0x40, 0x01, 0xC0, 0x80, 0x41],
    [0x00, 0xC1, 0x81, 0x40, 0x01, 0xC0, 0x80, 0x41, 0x01, 0xC0, 0x80, 0x41, 0x00, 0xC1, 0x81, 0x40]
  ]

  const TABLE_CRC_LO: seq<seq<bv8>> := [
    [0x00, 0xC0, 0xC1, 0x01, 0xC3, 0x03, 0x02, 0xC2, 0xC6, 0x06, 0x07, 0xC7, 0x05, 0xC5, 0xC4, 0x04],
    [0xCC, 0x0C, 0x0D, 0xCD, 0x0F, 0xCF, 0xCE, 0x0E, 0x0A, 0xCA, 0xCB, 0x0B, 0xC9, 0x09, 0x08, 0xC8],
    [0xD8, 0x18, 0x19, 0xD9, 0x1B, 0xDB, 0xDA, 0x1A, 0x1E, 0xDE, 0xDF, 0x1F, 0xDD, 0x1D, 0x1C, 0xDC],
    [0x14, 0xD4, 0xD5, 0x15, 0xD7, 0x17, 0x16, 0xD6, 0xD2, 0x12, 0x13, 0xD3, 0x11, 0xD1, 0xD0, 0x10],
    [0xF0, 0x30, 0x31, 0xF1, 0x33, 0xF3, 0xF2, 0x32, 0x36, 0xF6, 0xF7, 0x37, 0xF5, 0x35, 0x34, 0xF4],
    [0x3C, 0xFC, 0xFD, 0x3D, 0xFF, 0x3F, 0x3E, 0xFE, 0xFA, 0x3A, 0x3B, 0xFB, 0x39, 0xF9, 0xF8, 0x38],
    [0x28, 0xE8, 0xE9, 0x29, 0xEB, 0x2B, 0x2A, 0xEA, 0xEE, 0x2E, 0x2F, 0xEF, 0x2D, 0xED, 0xEC, 0x2C],
    [0xE4, 0x24, 0x25, 0xE5, 0x27, 0xE7, 0xE6, 0x26, 0x22, 0xE2, 0xE3, 0x23, 0xE1, 0x21, 0x20, 0xE0],
    [0xA0, 0x60, 0x61, 0xA1, 0x63, 0xA3, 0xA2, 0x62, 0x66, 0xA6, 0xA7, 0x67, 0xA5, 0x65, 0x64, 0xA4],
    [0x6C, 0xAC, 0xAD, 0x6D, 0xAF, 0x6F, 0x6E, 0xAE, 0xAA, 0x6A, 0x6B, 0xAB, 0x69, 0xA9, 0xA8, 0x68],
    [0x78, 0xB8, 0xB9, 0x79, 0xBB, 0x7B, 0x7A, 0xBA, 0xBE, 0x7E, 0x7F, 0xBF, 0x7D, 0xBD, 0xBC, 0x7C],
    [0xB4, 0x74, 0x75, 0xB5, 0x77, 0xB7, 0xB6, 0x76, 0x72, 0xB2, 0xB3, 0x73, 0xB1, 0x71, 0x70, 0xB0],
    [0x50, 0x90, 0x91, 0x51, 0x93, 0x53, 0x52, 0x92, 0x96, 0x56, 0x57, 0x97, 0x55, 0x95, 0x94, 0x54],
    [0x9C, 0x5C, 0x5D, 0x9D, 0x5F, 0x9F, 0x9E, 0x5E, 0x5A, 0x9A, 0x9B, 0x5B, 0x99, 0x59, 0x58, 0x98],
    [0x88, 0x48, 0x49, 0x89, 0x4B, 0x8B, 0x8A, 0x4A, 0x4E, 0x8E, 0x8F, 0x4F, 0x8D, 0x4D, 0x4C, 0x8C],
    [0x44, 0x84, 0x85, 0x45, 0x87, 0x47, 0x46, 0x86, 0x82, 0x42, 0x43, 0x83, 0x41, 0x81, 0x80, 0x40]
  ]

  function TableHi(i: byte): byte { TABLE_CRC_HI[(i >> 4) as int][(i & 0xF) as int] }
  function TableLo(i: byte): byte { TABLE_CRC_LO[(i >> 4) as int][(i & 0xF) as int] }

  /** Eight shifts written out. */
  function Shift8(c: bv16): bv16 {
    Shift1(Shift1(Shift1(Shift1(Shift1(Shift1(Shift1(Shift1(c))))))))
  }

  /** Entry i of the tables is the register after eight shifts of i, split in halves. */
  predicate EntryRight(i: byte) {
    TableHi(i) == LowHalf(Shift8(i as bv16)) && TableLo(i) == HighHalf(Shift8(i as bv16))
  }

  lemma EntriesFirstQuarter(i: byte)
    requires i < 0x40
    ensures EntryRight(i)
  {}

  lemma EntriesSecondQuarter(i: byte)
    requires 0x40 <= i < 0x80
    ensures EntryRight(i)
  {}

  lemma EntriesThirdQuarter(i: byte)
    requires 0x80 <= i < 0xC0
    ensures EntryRight(i)
  {}

  lemma EntriesLastQuarter(i: byte)
    requires 0xC0 <= i
    ensures EntryRight(i)
  {}

  /** All 512 table entries are right. */
  lemma TablesRight(i: byte)
    ensures TableHi(i) == LowHalf(Shifts(BITS, i as bv16))
    ensures TableLo(i) == HighHalf(Shifts(BITS, i as bv16))
  {
    EightShifts(i as bv16);
    if i < 0x40 {
      EntriesFirstQuarter(i);
    } else if i < 0x80 {
      EntriesSecondQuarter(i);
    } else if i < 0xC0 {
      EntriesThirdQuarter(i);
    } else {
      EntriesLastQuarter(i);
    }
  }

  // ---------- algebra of the register ----------

  lemma TwoMoreShifts(n: nat, c: bv16)
    ensures Shifts(n + 2, c) == Shift1(Shift1(Shifts(n, c)))
  {
    assert Shifts(n + 2, c) == Shift1(Shifts(n + 1, c));
  }

  lemma EightShifts(c: bv16)
    ensures Shifts(BITS, c) == Shift8(c)
  {
    TwoMoreShifts(0, c);
    TwoMoreShifts(2, c);
    TwoMoreShifts(4, c);
    TwoMoreShifts(6, c);
  }

  lemma Shift1Linear(x: bv16, y: bv16, z: bv16)
    requires z == Xor(x, y)
    ensures Shift1(z) == Xor(Shift1(x), Shift1(y))
  {}

  /** Shifting is linear over XOR. */
  lemma {:induction false} ShiftsLinear(n: nat, x: bv16, y: bv16, z: bv16)
    requires z == Xor(x, y)
    ensures Shifts(n, z) == Xor(Shifts(n, x), Shifts(n, y))
  {
    if n > 0 {
      ShiftsLinear(n - 1, x, y, z);
      Shift1Linear(Shifts(n - 1, x), Shifts(n - 1, y), Shifts(n - 1, z));
    }
  }

  lemma Shift1Zero(c: bv16)
    ensures Shift1(c) == 0 <==> c == 0
  {}

  lemma {:induction false} ShiftsZero(n: nat, c: bv16)
    ensures Shifts(n, c) == 0 <==> c == 0
  {
    if n > 0 {
      ShiftsZero(n - 1, c);
      Shift1Zero(Shifts(n - 1, c));
    }
  }

  lemma Shift8OfHighByte(h: byte)
    ensures Shifts(BITS, (h as bv16) << 8) == h as bv16
  {
    EightShifts((h as bv16) << 8);
  }

  lemma SplitHalves(c: bv16, h: byte, i: byte, b: byte)
    requires h == HighHalf(c) && i == XorByte(LowHalf(c), b)
    ensures Xor(c, b as bv16) == Xor((h as bv16) << 8, i as bv16)
  {}

  lemma XorHalves(h: byte, s: bv16, r: bv16)
    requires r == Xor(h as bv16, s)
    ensures LowHalf(r) == XorByte(h, LowHalf(s))
    ensures HighHalf(r) == HighHalf(s)
  {}

  /** Absorbing a byte, seen from the two halves. */
  lemma AbsorbByHalves(c: bv16, b: byte, h: byte, i: byte, s: bv16)
    requires h == HighHalf(c) && i == XorByte(LowHalf(c), b) && s == Shifts(BITS, i as bv16)
    ensures Absorb(c, b) == Xor(h as bv16, s)
    ensures LowHalf(Absorb(c, b)) == XorByte(h, LowHalf(s))
    ensures HighHalf(Absorb(c, b)) == HighHalf(s)
  {
    SplitHalves(c, h, i, b);
    ShiftsLinear(BITS, (h as bv16) << 8, i as bv16, Xor(c, b as bv16));
    Shift8OfHighByte(h);
    XorHalves(h, s, Absorb(c, b));
  }

  /** One turn of the program's loop is one byte of the reference. */
  lemma TableStep(c: bv16, b: byte, h: byte, i: byte)
    requires h == HighHalf(c) && i == XorByte(LowHalf(c), b)
    ensures LowHalf(Absorb(c, b)) == XorByte(h, TableHi(i))
    ensures HighHalf(Absorb(c, b)) == TableLo(i)
  {
    AbsorbByHalves(c, b, h, i, Shifts(BITS, i as bv16));
    TablesRight(i);
  }

  // ---------- the program's CRC ----------

  /** The two-table loop computes the bit-by-bit CRC, of a frame of any length. */
  method Crc(frame: seq<byte>) returns (r: bv16)
    ensures r == CrcOf(frame)
  {
    var crcHi: byte, crcLo: byte := 0xFF, 0xFF;
    var pos := 0;
    while pos < |frame|
      invariant pos <= |frame|
      invariant crcHi == LowHalf(Register(START, frame[..pos]))
      invariant crcLo == HighHalf(Register(START, frame[..pos]))
    {
      var i := XorByte(crcHi, frame[pos]);
      assert frame[..pos + 1][..pos] == frame[..pos];
      TableStep(Register(START, frame[..pos]), frame[pos], crcLo, i);
      crcHi := XorByte(crcLo, TableHi(i));
      crcLo := TableLo(i);
      pos := pos + 1;
    }
    assert frame[..pos] == frame;
    r := Pair(crcHi, crcLo);
  }

  /** Whether the last two bytes of a frame are its CRC, most significant first. */
  method CheckCrc(frame: seq<byte>) returns (ok: bool)
    requires |frame| >= 2
    ensures ok == CarriesCrc(frame)
  {
    var received := Pair(frame[|frame| - 2], frame[|frame| - 1]);
    var calculated := Crc(frame[..|frame| - 2]);
    ok := received == calculated;
  }

  // ---------- residues ----------

  lemma {:induction false} RegisterAppend(c: bv16, f: seq<byte>, g: seq<byte>)
    ensures Register(c, f + g) == Register(Register(c, f), g)
  {
    if g == [] {
      assert f + g == f;
    } else {
      var front := g[..|g| - 1];
      RegisterAppend(c, f, front);
      assert (f + g)[..|f + g| - 1] == f + front;
    }
  }

  lemma RegisterStep(c: bv16, f: seq<byte>, b: byte)
    ensures Register(c, f + [b]) == Absorb(Register(c, f), b)
  {
    assert (f + [b])[..|f|] == f;
  }

  /** The example of MODBUS over Serial Line V1.02, section 6.2.2: the CRC of 02 07 is 1241, sent as 41 12. */
  lemma StandardExample()
    ensures Register(START, [0x02, 0x07]) == 0x1241 && CrcOf([0x02, 0x07]) == 0x4112
    ensures CrcOf([]) == 0xFFFF
  {
    EightShifts(Xor(0xFFFF, 0x02));
    assert Absorb(0xFFFF, 0x02) == 0x813E;
    EightShifts(Xor(0x813E, 0x07));
    assert [0x02, 0x07][..1] == [0x02] && [0x02][..0] == [];
    assert Register(START, [0x02]) == 0x813E;
  }
}
