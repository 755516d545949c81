/**
  What the CRC check of src/modbus/modbus.cc (`check_crc`) detects.

  Two frames of equal length are compared through their difference, the byte-wise XOR.  Since the
  register is linear, a valid frame stays valid under a difference exactly when the register
  started at zero ends at zero on that difference.  Bits are numbered in transmission order:
  bit t of a frame is bit t % 8, least significant first, of byte t / 8.
 */
module ErrorDetection {

  import opened Crc16

  // ---------- validity is a zero register ----------

  lemma XorZero(c: bv16, b: byte)
    ensures Xor(c, b as bv16) == 0 <==> HighHalf(c) == 0 && LowHalf(c) == b
  {}

  lemma AbsorbZero(c: bv16, b: byte)
    ensures Absorb(c, b) == 0 <==> HighHalf(c) == 0 && LowHalf(c) == b
  {
    ShiftsZero(BITS, Xor(c, b as bv16));
    XorZero(c, b);
  }

  lemma ShiftedByteHasHighHalf(i: byte)
    ensures HighHalf(Shift8(i as bv16)) == 0 <==> i == 0
  {}

  lemma XorByteZero(a: byte, b: byte)
    ensures XorByte(a, b) == 0 <==> a == b
    ensures XorByte(a, 0) == a
  {}

  /** Two bytes take the register to zero exactly when they are its two halves. */
  lemma TwoBytesToZero(c: bv16, b1: byte, b2: byte)
    ensures Absorb(Absorb(c, b1), b2) == 0 <==> b1 == LowHalf(c) && b2 == HighHalf(c)
  {
    var h, i, r := HighHalf(c), XorByte(LowHalf(c), b1), Absorb(c, b1);
    var s := Shifts(BITS, i as bv16);
    AbsorbByHalves(c, b1, h, i, s);
    EightShifts(i as bv16);
    ShiftedByteHasHighHalf(i);
    XorByteZero(LowHalf(c), b1);
    XorByteZero(h, LowHalf(s));
    AbsorbZero(r, b2);
    if i == 0 {
      ShiftsZero(BITS, i as bv16);
    }
  }

  lemma PairInjective(h: byte, l: byte, h': byte, l': byte)
    ensures Pair(h, l) == Pair(h', l') <==> h == h' && l == l'
  {}

  lemma HalvesZero(c: bv16)
    ensures Pair(LowHalf(c), HighHalf(c)) == 0 <==> c == 0
  {}

  /** `check_crc` holds exactly when running the CRC over the whole frame, CRC included, gives 0. */
  lemma ValidIffZero(f: seq<byte>)
    requires |f| >= 2
    ensures CarriesCrc(f) <==> Register(START, f) == 0
    ensures CarriesCrc(f) <==> CrcOf(f) == 0
  {
    var p, b1, b2 := f[..|f| - 2], f[|f| - 2], f[|f| - 1];
    var c := Register(START, p);
    assert f[..|f| - 1] == p + [b1];
    RegisterStep(START, p, b1);
    TwoBytesToZero(c, b1, b2);
    PairInjective(b1, b2, LowHalf(c), HighHalf(c));
    HalvesZero(Register(START, f));
  }

  // ---------- differences ----------

  function Difference(f: seq<byte>, g: seq<byte>): (d: seq<byte>)
    requires |f| == |g|
    ensures |d| == |f|
  {
    seq(|f|, i requires 0 <= i < |f| => XorByte(f[i], g[i]))
  }

  lemma XorSwap(c: bv16, b: byte, c': bv16, b': byte)
    ensures Xor(Xor(c, c'), XorByte(b, b') as bv16) == Xor(Xor(c, b as bv16), Xor(c', b' as bv16))
  {}

  lemma AbsorbLinear(c: bv16, b: byte, c': bv16, b': byte, c'': bv16, b'': byte)
    requires c'' == Xor(c, c') && b'' == XorByte(b, b')
    ensures Absorb(c'', b'') == Xor(Absorb(c, b), Absorb(c', b'))
  {
    XorSwap(c, b, c', b');
    ShiftsLinear(BITS, Xor(c, b as bv16), Xor(c', b' as bv16), Xor(c'', b'' as bv16));
  }

  /** The register is linear over XOR of start values and frames. */
  lemma {:induction false} RegisterLinear(c: bv16, f: seq<byte>, c': bv16, g: seq<byte>, c'': bv16, d: seq<byte>)
    requires |f| == |g| && c'' == Xor(c, c') && d == Difference(f, g)
    ensures Register(c'', d) == Xor(Register(c, f), Register(c', g))
  {
    if f != [] {
      var n := |f| - 1;
      assert d[..n] == Difference(f[..n], g[..n]);
      RegisterLinear(c, f[..n], c', g[..n], c'', d[..n]);
      AbsorbLinear(Register(c, f[..n]), f[n], Register(c', g[..n]), g[n], Register(c'', d[..n]), d[n]);
    }
  }

  lemma XorOfEqual(c: bv16, r: bv16, s: bv16)
    ensures Xor(c, c) == 0
    ensures r == 0 ==> Xor(r, s) == s
  {}

  /** A valid frame stays valid under a change exactly when the change alone leaves a zero register. */
  lemma ChangeUndetected(f: seq<byte>, g: seq<byte>)
    requires |f| == |g| >= 2 && CarriesCrc(f)
    ensures CarriesCrc(g) <==> Register(0, Difference(f, g)) == 0
  {
    ValidIffZero(f);
    ValidIffZero(g);
    XorOfEqual(START, Register(START, f), Register(START, g));
    RegisterLinear(START, f, START, g, 0, Difference(f, g));
  }

  // ---------- runs of zero bytes ----------

  predicate AllZero(z: seq<byte>) { forall i :: 0 <= i < |z| ==> z[i] == 0 }

  lemma {:induction false} ShiftsAdd(m: nat, n: nat, c: bv16)
    ensures Shifts(m + n, c) == Shifts(m, Shifts(n, c))
  {
    if m > 0 {
      ShiftsAdd(m - 1, n, c);
    }
  }

  /** A zero byte is eight shifts. */
  lemma {:induction false} ZeroRun(c: bv16, z: seq<byte>)
    requires AllZero(z)
    ensures Register(c, z) == Shifts(BITS * |z|, c)
  {
    if z != [] {
      var n := |z| - 1;
      ZeroRun(c, z[..n]);
      ShiftsAdd(BITS, BITS * n, c);
    }
  }

  lemma ZeroRunKeepsZero(c: bv16, z: seq<byte>)
    requires AllZero(z)
    ensures Register(c, z) == 0 <==> c == 0
  {
    ZeroRun(c, z);
    ShiftsZero(BITS * |z|, c);
  }

  lemma ZeroXor(e: byte)
    ensures Xor(0, e as bv16) == e as bv16
  {}

  lemma FirstByteAfterZeros(z: seq<byte>, e: byte)
    requires AllZero(z)
    ensures Register(0, z + [e]) == Shifts(BITS, e as bv16)
  {
    ZeroRunKeepsZero(0, z);
    RegisterStep(0, z, e);
    ZeroXor(e);
  }

  lemma TwoMoreBytes(f: seq<byte>, e1: byte, e2: byte, r: bv16)
    requires r == Register(0, f)
    ensures Register(0, f + [e1] + [e2]) == 0 <==> e1 == LowHalf(r) && e2 == HighHalf(r)
  {
    RegisterStep(0, f, e1);
    RegisterStep(0, f + [e1], e2);
    TwoBytesToZero(r, e1, e2);
  }

  /** Three bytes amid zeros: only a multiple of the CRC polynomial leaves a zero register. */
  lemma ThreeBytesAmidZeros(d: seq<byte>, k: nat, r: bv16)
    requires k + 3 <= |d| && AllZero(d[..k]) && AllZero(d[k + 3..])
    requires r == Shifts(BITS, d[k] as bv16)
    ensures Register(0, d) == 0 <==> d[k + 1] == LowHalf(r) && d[k + 2] == HighHalf(r)
  {
    var f := d[..k] + [d[k]];
    var g := f + [d[k + 1]] + [d[k + 2]];
    FirstByteAfterZeros(d[..k], d[k]);
    TwoMoreBytes(f, d[k + 1], d[k + 2], r);
    assert d == g + d[k + 3..];
    RegisterAppend(0, g, d[k + 3..]);
    ZeroRunKeepsZero(Register(0, g), d[k + 3..]);
  }

  // ---------- bursts ----------

  function Mask(j: nat): byte
    requires j < 8
  {
    if j == 0 then 1 else 2 * Mask(j - 1)
  }

  predicate Bit(b: byte, j: nat)
    requires j < 8
  {
    b & Mask(j) != 0
  }

  /** Whether the frames differ in bit `t`. */
  predicate DiffersAt(f: seq<byte>, g: seq<byte>, t: nat)
    requires |f| == |g| && t < 8 * |f|
  {
    Bit(f[t / 8], t % 8) != Bit(g[t / 8], t % 8)
  }

  predicate IsMask(m: byte) {
    m == 1 || m == 2 || m == 4 || m == 8 || m == 16 || m == 32 || m == 64 || m == 128
  }

  lemma {:induction false} MaskIsMask(j: nat)
    requires j < 8
    ensures IsMask(Mask(j)) && (j < 7 ==> Mask(j) != 128)
  {
    assert Mask(0) == 1 && Mask(1) == 2 && Mask(2) == 4 && Mask(3) == 8;
    assert Mask(4) == 16 && Mask(5) == 32 && Mask(6) == 64 && Mask(7) == 128;
  }

  lemma MaskOfXor(a: byte, b: byte, m: byte)
    requires IsMask(m)
    ensures XorByte(a, b) & m != 0 <==> (a & m != 0) != (b & m != 0)
  {}

  lemma BitOfXor(a: byte, b: byte, j: nat)
    requires j < 8
    ensures Bit(XorByte(a, b), j) <==> Bit(a, j) != Bit(b, j)
  {
    MaskIsMask(j);
    MaskOfXor(a, b, Mask(j));
  }

  lemma NoBits(b: byte)
    requires forall j :: 0 <= j < 8 ==> !Bit(b, j)
    ensures b == 0
  {
    assert !Bit(b, 0) && !Bit(b, 1) && !Bit(b, 2) && !Bit(b, 3);
    assert !Bit(b, 4) && !Bit(b, 5) && !Bit(b, 6) && !Bit(b, 7);
  }

  lemma NoBitsBelow(e: byte, s: nat)
    requires s < 8 && forall j :: 0 <= j < s ==> !Bit(e, j)
    ensures e & (Mask(s) - 1) == 0
  {
    if s > 0 {
      NoBitsBelow(e, s - 1);
      assert !Bit(e, s - 1);
      MaskIsMask(s - 1);
      OneMoreBit(e, Mask(s - 1));
    }
  }

  lemma OneMoreBit(e: byte, m: byte)
    requires IsMask(m) && m != 128 && e & m == 0
    ensures e & (m - 1) == 0 ==> e & (2 * m - 1) == 0
    ensures e & !(2 * m - 1) == 0 ==> e & !(m - 1) == 0
  {}

  lemma NoBitsFrom(e: byte, s: nat)
    requires s < 8 && forall j :: s <= j < 8 ==> !Bit(e, j)
    ensures e & !(Mask(s) - 1) == 0
    decreases 8 - s
  {
    assert !Bit(e, s);
    assert Mask(7) == 128;
    if s < 7 {
      NoBitsFrom(e, s + 1);
      MaskIsMask(s);
      OneMoreBit(e, Mask(s));
    }
  }

  /** A byte with no bit below a position leaves, after eight shifts, a bit at or above it in the
      high half: a polynomial multiple starting at bit s spans more than sixteen bits. */
  lemma PolynomialIsLong(e0: byte, m: byte)
    requires IsMask(m) && e0 != 0 && e0 & (m - 1) == 0
    ensures HighHalf(Shift8(e0 as bv16)) & !(m - 1) != 0
  {}

  /** All differing bits lie within the sixteen positions from t0. */
  ghost predicate WithinBurst(f: seq<byte>, g: seq<byte>, t0: nat)
    requires |f| == |g|
  {
    forall t :: 0 <= t < 8 * |f| && DiffersAt(f, g, t) ==> t0 <= t < t0 + 16
  }

  lemma BitOfDifference(f: seq<byte>, g: seq<byte>, i: nat, j: nat)
    requires |f| == |g| && i < |f| && j < 8
    ensures Bit(Difference(f, g)[i], j) <==> DiffersAt(f, g, 8 * i + j)
  {
    BitOfXor(f[i], g[i], j);
  }

  /** Every byte of the difference outside the burst's three bytes is zero. */
  lemma OutsideBurst(f: seq<byte>, g: seq<byte>, t0: nat, i: nat)
    requires |f| == |g| && i < |f|
    requires WithinBurst(f, g, t0)
    requires i < t0 / 8 || i > t0 / 8 + 2
    ensures Difference(f, g)[i] == 0
  {
    forall j | 0 <= j < 8 ensures !Bit(Difference(f, g)[i], j) {
      BitOfDifference(f, g, i, j);
    }
    NoBits(Difference(f, g)[i]);
  }

  /** The first byte of a burst that starts at its bit s has no bit below s. */
  lemma FirstByteOfBurst(f: seq<byte>, g: seq<byte>, t0: nat, i: nat)
    requires |f| == |g| && i < |f| && i == t0 / 8
    requires WithinBurst(f, g, t0)
    ensures Difference(f, g)[i] & (Mask(t0 % 8) - 1) == 0
  {
    forall j | 0 <= j < t0 % 8 ensures !Bit(Difference(f, g)[i], j) {
      BitOfDifference(f, g, i, j);
    }
    NoBitsBelow(Difference(f, g)[i], t0 % 8);
  }

  /** Its third byte has no bit from s on. */
  lemma ThirdByteOfBurst(f: seq<byte>, g: seq<byte>, t0: nat, i: nat)
    requires |f| == |g| && i < |f| && i == t0 / 8 + 2
    requires WithinBurst(f, g, t0)
    ensures Difference(f, g)[i] & !(Mask(t0 % 8) - 1) == 0
  {
    forall j | t0 % 8 <= j < 8 ensures !Bit(Difference(f, g)[i], j) {
      BitOfDifference(f, g, i, j);
    }
    NoBitsFrom(Difference(f, g)[i], t0 % 8);
  }

  lemma EqualIfNoDifference(f: seq<byte>, g: seq<byte>)
    requires |f| == |g| && AllZero(Difference(f, g))
    ensures f == g
  {
    forall i | 0 <= i < |f| ensures f[i] == g[i] {
      assert Difference(f, g)[i] == 0;
      XorByteZero(f[i], g[i]);
    }
  }

  lemma NoShiftOfZero(r: bv16)
    requires r == Shifts(BITS, (0 as byte) as bv16)
    ensures LowHalf(r) == 0 && HighHalf(r) == 0
  {
    ShiftsZero(BITS, 0);
  }

  lemma WindowZero(d: seq<byte>, k: nat)
    requires k + 3 <= |d| && AllZero(d[..k]) && AllZero(d[k + 3..])
    requires d[k] == 0 && d[k + 1] == 0 && d[k + 2] == 0
    ensures AllZero(d)
  {
    assert d == d[..k] + [d[k], d[k + 1], d[k + 2]] + d[k + 3..];
  }

  /** A nonzero difference confined to three bytes, whose first has no bit below a position and
      whose third has no bit from it on, never leaves a zero register. */
  lemma ShortDifference(d: seq<byte>, k: nat, m: byte)
    requires k + 3 <= |d| && AllZero(d[..k]) && AllZero(d[k + 3..]) && !AllZero(d)
    requires IsMask(m) && d[k] & (m - 1) == 0 && d[k + 2] & !(m - 1) == 0
    ensures Register(0, d) != 0
  {
    var r := Shifts(BITS, d[k] as bv16);
    ThreeBytesAmidZeros(d, k, r);
    if d[k] == 0 {
      NoShiftOfZero(r);
      if d[k + 1] == 0 && d[k + 2] == 0 {
        WindowZero(d, k);
      }
    } else {
      EightShifts(d[k] as bv16);
      PolynomialIsLong(d[k], m);
    }
  }

  /** Every burst of at most sixteen bits is detected: if the bits in which g differs from a valid
      frame lie within sixteen consecutive bit positions, anywhere in the frame and its CRC, then
      g is not valid. */
  lemma BurstDetected(f: seq<byte>, g: seq<byte>, t0: nat)
    requires |f| == |g| >= 2 && CarriesCrc(f) && f != g
    requires WithinBurst(f, g, t0)
    ensures !CarriesCrc(g)
  {
    var k, diff := t0 / 8, Difference(f, g);
    forall i | 0 <= i < |f| && (i < k || i > k + 2) ensures diff[i] == 0 {
      OutsideBurst(f, g, t0, i);
    }
    if AllZero(diff) {
      EqualIfNoDifference(f, g);
    }
    var d := diff + [0, 0];
    assert k + 3 <= |d|;
    assert !AllZero(d) by {
      var i :| 0 <= i < |diff| && diff[i] != 0;
      assert d[i] != 0;
    }
    FirstByteOfBurst(f, g, t0, k);
    if k + 2 < |f| {
      ThirdByteOfBurst(f, g, t0, k + 2);
    }
    MaskIsMask(t0 % 8);
    ShortDifference(d, k, Mask(t0 % 8));
    RegisterAppend(0, diff, [0, 0]);
    ZeroRunKeepsZero(Register(0, diff), [0, 0]);
    ChangeUndetected(f, g);
  }

  /** In particular: changing any one byte, or any two adjacent bytes, of a valid frame. */
  lemma TwoAdjacentBytesDetected(f: seq<byte>, g: seq<byte>, k: nat)
    requires |f| == |g| >= 2 && CarriesCrc(f) && f != g
    requires forall i :: 0 <= i < |f| && f[i] != g[i] ==> i == k || i == k + 1
    ensures !CarriesCrc(g)
  {
    forall t | 0 <= t < 8 * |f| && DiffersAt(f, g, t) ensures 8 * k <= t < 8 * k + 16 {
      assert f[t / 8] != g[t / 8];
    }
    BurstDetected(f, g, 8 * k);
  }
}
