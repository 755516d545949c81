/**
  Isolated bit errors (`check_crc` in src/modbus/modbus.cc): every odd number of flipped bits is
  detected in frames of any length; two flipped bits are missed exactly when they are a multiple of
  32767 positions apart; so in every frame shorter than 4096 bytes all errors of one, two or
  three bits are detected.
 */
module BitErrors {

  import opened Crc16
  import opened ErrorDetection
  import opened CrcPeriod

  // ---------- an odd number of flipped bits ----------

  /** The positions, counted from `base`, of the ones among the n lowest bits of a byte. */
  function BitsOf(n: nat, b: byte, base: nat): seq<nat>
    requires n <= 8
  {
    if n == 0 then [] else BitsOf(n - 1, b, base) + if Bit(b, n - 1) then [base + n - 1] else []
  }

  /** The positions of the ones in a sequence of bytes, in increasing order. */
  function BitsIn(d: seq<byte>): seq<nat> {
    if d == [] then [] else BitsIn(d[..|d| - 1]) + BitsOf(BITS, d[|d| - 1], 8 * (|d| - 1))
  }

  /** The positions of the bits in which two frames differ. */
  function FlippedBits(f: seq<byte>, g: seq<byte>): seq<nat>
    requires |f| == |g|
  {
    BitsIn(Difference(f, g))
  }

  ghost predicate Increasing(s: seq<nat>) { forall i, j :: 0 <= i < j < |s| ==> s[i] < s[j] }

  lemma IncreasingConcat(s: seq<nat>, u: seq<nat>)
    requires Increasing(s) && Increasing(u)
    requires forall x, y :: x in s && y in u ==> x < y
    ensures Increasing(s + u)
  {
    var w := s + u;
    forall i, j | 0 <= i < j < |w| ensures w[i] < w[j] {
      if i < |s| <= j {
        assert w[i] in s && w[j] in u;
      }
    }
  }

  lemma {:induction false} BitsOfExact(n: nat, b: byte, base: nat)
    requires n <= 8
    ensures Increasing(BitsOf(n, b, base))
    ensures forall t :: t in BitsOf(n, b, base) <==> base <= t < base + n && Bit(b, t - base)
  {
    if n > 0 {
      BitsOfExact(n - 1, b, base);
      IncreasingConcat(BitsOf(n - 1, b, base), if Bit(b, n - 1) then [base + n - 1] else []);
    }
  }

  lemma {:induction false} BitsInExact(d: seq<byte>)
    ensures Increasing(BitsIn(d))
    ensures forall t: nat :: t in BitsIn(d) <==> t < 8 * |d| && Bit(d[t / 8], t % 8)
  {
    if d != [] {
      var n := |d| - 1;
      BitsInExact(d[..n]);
      BitsOfExact(BITS, d[n], 8 * n);
      IncreasingConcat(BitsIn(d[..n]), BitsOf(BITS, d[n], 8 * n));
      forall t: nat ensures t in BitsIn(d) <==> t < 8 * |d| && Bit(d[t / 8], t % 8) {
        if 8 * n <= t < 8 * n + 8 {
          assert t / 8 == n && t % 8 == t - 8 * n;
        }
      }
    }
  }

  /** FlippedBits lists, in order and once each, the positions at which the frames differ. */
  lemma FlippedBitsExact(f: seq<byte>, g: seq<byte>)
    requires |f| == |g|
    ensures Increasing(FlippedBits(f, g))
    ensures forall t: nat :: t in FlippedBits(f, g) <==> t < 8 * |f| && DiffersAt(f, g, t)
  {
    BitsInExact(Difference(f, g));
    forall t: nat | t < 8 * |f| ensures Bit(Difference(f, g)[t / 8], t % 8) <==> DiffersAt(f, g, t) {
      BitOfDifference(f, g, t / 8, t % 8);
    }
  }

  /** Whether the number of ones among the n lowest bits is odd. */
  predicate Odd(n: nat, b: byte)
    requires n <= 8
  {
    n > 0 && Odd(n - 1, b) != Bit(b, n - 1)
  }

  lemma {:induction false} OddCount(n: nat, b: byte, base: nat)
    requires n <= 8
    ensures Odd(n, b) <==> |BitsOf(n, b, base)| % 2 == 1
  {
    if n > 0 {
      OddCount(n - 1, b, base);
    }
  }

  predicate OddByte(b: byte) { Odd(BITS, b) }

  predicate OddRegister(c: bv16) { OddByte(HighHalf(c)) != OddByte(LowHalf(c)) }

  lemma {:induction false} OddOfSum(n: nat, a: byte, b: byte, x: byte)
    requires n <= 8
    requires forall j :: 0 <= j < 8 ==> Bit(x, j) == (Bit(a, j) != Bit(b, j))
    ensures Odd(n, x) <==> Odd(n, a) != Odd(n, b)
  {
    if n > 0 {
      OddOfSum(n - 1, a, b, x);
    }
  }

  lemma OddOfXor(a: byte, b: byte)
    ensures OddByte(XorByte(a, b)) == (OddByte(a) != OddByte(b))
  {
    forall j | 0 <= j < 8 ensures Bit(XorByte(a, b), j) == (Bit(a, j) != Bit(b, j)) {
      BitOfXor(a, b, j);
    }
    OddOfSum(BITS, a, b, XorByte(a, b));
  }

  /** All eight bits at once. */
  predicate Odd8(b: byte) {
    ((Bit(b, 0) != Bit(b, 1)) != (Bit(b, 2) != Bit(b, 3)))
    != ((Bit(b, 4) != Bit(b, 5)) != (Bit(b, 6) != Bit(b, 7)))
  }

  lemma OddUnrolled(b: byte)
    ensures Odd(8, b) == Odd8(b)
  {
    TwoMoreBits(0, b);
    TwoMoreBits(2, b);
    TwoMoreBits(4, b);
    TwoMoreBits(6, b);
  }

  lemma TwoMoreBits(n: nat, b: byte)
    requires n <= 6
    ensures Odd(n + 2, b) == ((Odd(n, b) != Bit(b, n)) != Bit(b, n + 1))
  {
    assert Odd(n + 1, b) == (Odd(n, b) != Bit(b, n));
  }

  lemma Odd8OfShiftedByte(i: byte)
    ensures (Odd8(HighHalf(Shift8(i as bv16))) != Odd8(LowHalf(Shift8(i as bv16)))) == Odd8(i)
  {}

  lemma OddOfShiftedByte(i: byte)
    ensures OddRegister(Shifts(BITS, i as bv16)) == OddByte(i)
  {
    var s := Shifts(BITS, i as bv16);
    EightShifts(i as bv16);
    Odd8OfShiftedByte(i);
    OddUnrolled(i);
    OddUnrolled(HighHalf(s));
    OddUnrolled(LowHalf(s));
  }

  lemma CombineParities(h: bool, l: bool, b: bool, i: bool, sh: bool, sl: bool, rl: bool)
    requires i == (l != b) && rl == (h != sl) && (sh != sl) == i
    ensures (sh != rl) == ((h != l) != b)
  {}

  lemma ParityByHalves(c: bv16, b: byte, i: byte, s: bv16, r: bv16)
    requires i == XorByte(LowHalf(c), b) && s == Shifts(BITS, i as bv16)
    requires HighHalf(r) == HighHalf(s) && LowHalf(r) == XorByte(HighHalf(c), LowHalf(s))
    ensures OddRegister(r) == (OddRegister(c) != OddByte(b))
  {
    OddOfXor(HighHalf(c), LowHalf(s));
    OddOfXor(LowHalf(c), b);
    OddOfShiftedByte(i);
    CombineParities(OddByte(HighHalf(c)), OddByte(LowHalf(c)), OddByte(b), OddByte(i),
                    OddByte(HighHalf(s)), OddByte(LowHalf(s)), OddByte(LowHalf(r)));
  }

  /** Absorbing a byte adds its parity to the register's. */
  lemma ParityOfAbsorb(c: bv16, b: byte)
    ensures OddRegister(Absorb(c, b)) == (OddRegister(c) != OddByte(b))
  {
    var i := XorByte(LowHalf(c), b);
    var s := Shifts(BITS, i as bv16);
    AbsorbByHalves(c, b, HighHalf(c), i, s);
    ParityByHalves(c, b, i, s, Absorb(c, b));
  }

  lemma OddOfZero()
    ensures !OddRegister(0)
  {
    OddUnrolled(0);
  }

  /** The register's parity is that of the bits absorbed. */
  lemma {:induction false} ParityOfRegister(d: seq<byte>)
    ensures OddRegister(Register(0, d)) <==> |BitsIn(d)| % 2 == 1
  {
    if d == [] {
      OddOfZero();
    } else {
      var n := |d| - 1;
      ParityOfRegister(d[..n]);
      ParityOfAbsorb(Register(0, d[..n]), d[n]);
      OddCount(BITS, d[n], 8 * n);
    }
  }

  /** Flipping an odd number of bits of a valid frame, of any length, is always detected. */
  lemma OddErrorDetected(f: seq<byte>, g: seq<byte>)
    requires |f| == |g| >= 2 && CarriesCrc(f)
    requires |FlippedBits(f, g)| % 2 == 1
    ensures !CarriesCrc(g)
  {
    ParityOfRegister(Difference(f, g));
    OddOfZero();
    ChangeUndetected(f, g);
  }

  // ---------- two flipped bits ----------

  /** Bit j of a byte is what 15 - j shifts make of the register's top bit. */
  lemma {:induction false} MaskIsShifted(j: nat)
    requires j < 8
    ensures Shifts(15 - j, TOP) == Mask(j) as bv16
    decreases 8 - j
  {
    MaskIsMask(j);
    if j == 7 {
      PowersTo128();
      assert Mask(7) == 128;
    } else {
      MaskIsShifted(j + 1);
      ShiftedMask(Mask(j));
    }
  }

  lemma ShiftedMask(m: byte)
    requires IsMask(m) && m != 128
    ensures Shift1((2 * m) as bv16) == m as bv16
  {}

  lemma {:induction false} ShiftsInjective(n: nat, c: bv16, d: bv16)
    ensures Shifts(n, c) == Shifts(n, d) <==> c == d
  {
    if n > 0 {
      ShiftsInjective(n - 1, c, d);
      Shift1Injective(Shifts(n - 1, c), Shifts(n - 1, d));
    }
  }

  lemma AbsorbToZero(c: bv16, b: byte)
    ensures Absorb(c, b) == 0 <==> c == b as bv16
  {
    AbsorbZero(c, b);
    HalvesOfByte(c, b);
  }

  lemma HalvesOfByte(c: bv16, b: byte)
    ensures c == b as bv16 <==> HighHalf(c) == 0 && LowHalf(c) == b
  {}

  /** The register n shifts after holding its top bit. */
  function After(n: nat): bv16 { Shifts(n, TOP) }

  /** The register, started at zero, at the end of a difference. */
  function Residue(d: seq<byte>): bv16 { Register(0, d) }

  lemma FirstFlip(z: seq<byte>, j: nat)
    requires AllZero(z) && j < 8
    ensures Residue(z + [Mask(j)]) == After(BITS + (15 - j))
  {
    FirstByteAfterZeros(z, Mask(j));
    MaskIsShifted(j);
    ShiftsAdd(BITS, 15 - j, TOP);
  }

  lemma AcrossZeros(f: seq<byte>, z: seq<byte>, n: nat)
    requires AllZero(z) && Residue(f) == After(n)
    ensures Residue(f + z) == After(BITS * |z| + n)
  {
    RegisterAppend(0, f, z);
    ZeroRun(Register(0, f), z);
    ShiftsAdd(BITS * |z|, n, TOP);
  }

  lemma SamePhase(j: nat, delta: nat)
    requires j < 8
    ensures After(15 - j + delta) == Mask(j) as bv16 <==> delta % PERIOD == 0
  {
    MaskIsShifted(j);
    ShiftsAdd(15 - j, delta, TOP);
    ShiftsInjective(15 - j, Shifts(delta, TOP), TOP);
    PeriodExact(delta);
  }

  lemma SecondFlip(f: seq<byte>, j: nat, delta: nat)
    requires j < 8 && Residue(f) == After(15 - j + delta)
    ensures Residue(f + [Mask(j)]) == 0 <==> delta % PERIOD == 0
  {
    RegisterStep(0, f, Mask(j));
    AbsorbToZero(Residue(f), Mask(j));
    SamePhase(j, delta);
  }

  lemma ZeroTail(f: seq<byte>, z: seq<byte>)
    requires AllZero(z)
    ensures Residue(f + z) == 0 <==> Residue(f) == 0
  {
    RegisterAppend(0, f, z);
    ZeroRunKeepsZero(Register(0, f), z);
  }

  /** A difference of two one-bit bytes, amid zeros, leaves a zero register exactly when the two
      bits are a whole number of periods apart. */
  lemma TwoBitsAmidZeros(d: seq<byte>, i1: nat, j1: nat, i2: nat, j2: nat)
    requires i1 < i2 < |d| && j1 < 8 && j2 < 8
    requires d[i1] == Mask(j1) && d[i2] == Mask(j2)
    requires AllZero(d[..i1]) && AllZero(d[i1 + 1..i2]) && AllZero(d[i2 + 1..])
    ensures Residue(d) == 0 <==> (8 * i2 + j2 - 8 * i1 - j1) % PERIOD == 0
  {
    var p, z, q := d[..i1] + [Mask(j1)], d[i1 + 1..i2], d[i2 + 1..];
    FirstFlip(d[..i1], j1);
    AcrossZeros(p, z, BITS + (15 - j1));
    SecondFlip(p + z, j2, 8 * i2 + j2 - 8 * i1 - j1);
    ZeroTail(p + z + [Mask(j2)], q);
    assert d == p + z + [Mask(j2)] + q;
  }

  lemma OnlyBit(e: byte, j: nat)
    requires j < 8 && forall k :: 0 <= k < 8 ==> (Bit(e, k) <==> k == j)
    ensures e == Mask(j)
  {
    forall k | 0 <= k < 8 ensures !Bit(XorByte(e, Mask(j)), k) {
      BitOfXor(e, Mask(j), k);
      BitOfMask(j, k);
    }
    NoBits(XorByte(e, Mask(j)));
    XorByteZero(e, Mask(j));
  }

  lemma BitOfMask(j: nat, k: nat)
    requires j < 8 && k < 8
    ensures Bit(Mask(j), k) <==> j == k
  {
    MaskIsMask(j);
    MaskIsMask(k);
    MasksDiffer(j, k);
  }

  lemma {:induction false} MasksDiffer(j: nat, k: nat)
    requires j < 8 && k < 8
    ensures Mask(j) == Mask(k) <==> j == k
  {
    assert Mask(0) == 1 && Mask(1) == 2 && Mask(2) == 4 && Mask(3) == 8;
    assert Mask(4) == 16 && Mask(5) == 32 && Mask(6) == 64 && Mask(7) == 128;
  }

  /** Where two frames differ in exactly two bits, the bytes of their difference. */
  lemma ByteOfTwoFlips(f: seq<byte>, g: seq<byte>, t1: nat, t2: nat, i: nat)
    requires |f| == |g| && i < |f| && t1 < t2 < 8 * |f| && t1 / 8 != t2 / 8
    requires forall t :: 0 <= t < 8 * |f| ==> (DiffersAt(f, g, t) <==> t == t1 || t == t2)
    ensures i == t1 / 8 ==> Difference(f, g)[i] == Mask(t1 % 8)
    ensures i == t2 / 8 ==> Difference(f, g)[i] == Mask(t2 % 8)
    ensures i != t1 / 8 && i != t2 / 8 ==> Difference(f, g)[i] == 0
  {
    var e := Difference(f, g)[i];
    forall k | 0 <= k < 8 ensures Bit(e, k) <==> 8 * i + k == t1 || 8 * i + k == t2 {
      BitOfDifference(f, g, i, k);
    }
    if i == t1 / 8 {
      OnlyBit(e, t1 % 8);
    } else if i == t2 / 8 {
      OnlyBit(e, t2 % 8);
    } else {
      NoBits(e);
    }
  }

  /** Two flipped bits go undetected exactly when they are a multiple of 32767 positions apart. */
  lemma TwoBitError(f: seq<byte>, g: seq<byte>, t1: nat, t2: nat)
    requires |f| == |g| >= 2 && CarriesCrc(f) && t1 < t2 < 8 * |f|
    requires forall t :: 0 <= t < 8 * |f| ==> (DiffersAt(f, g, t) <==> t == t1 || t == t2)
    ensures CarriesCrc(g) <==> (t2 - t1) % PERIOD == 0
  {
    if t1 / 8 == t2 / 8 {
      assert DiffersAt(f, g, t1);
      BurstDetected(f, g, t1);
    } else {
      var d := Difference(f, g);
      forall i | 0 <= i < |f|
        ensures i == t1 / 8 ==> d[i] == Mask(t1 % 8)
        ensures i == t2 / 8 ==> d[i] == Mask(t2 % 8)
        ensures i != t1 / 8 && i != t2 / 8 ==> d[i] == 0
      {
        ByteOfTwoFlips(f, g, t1, t2, i);
      }
      TwoBitsAmidZeros(d, t1 / 8, t1 % 8, t2 / 8, t2 % 8);
      ChangeUndetected(f, g);
    }
  }

  /** In a frame of at most 32767 bits every error of one, two or three bits is detected. */
  lemma UpToThreeBitsDetected(f: seq<byte>, g: seq<byte>)
    requires |f| == |g| >= 2 && CarriesCrc(f) && 8 * |f| <= PERIOD
    requires 1 <= |FlippedBits(f, g)| <= 3
    ensures !CarriesCrc(g)
  {
    var flips := FlippedBits(f, g);
    FlippedBitsExact(f, g);
    if |flips| == 2 {
      assert flips[0] in flips && flips[1] in flips;
      TwoBitError(f, g, flips[0], flips[1]);
    } else {
      OddErrorDetected(f, g);
    }
  }
}
