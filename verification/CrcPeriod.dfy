/**
  The period of the CRC register: shifting the register 0x8000 gives 0x8000 back after n shifts
  exactly when 32767 divides n.  This is why two flipped bits less than 32767 positions apart are
  always detected (module BitErrors).
 */
module CrcPeriod {

  import opened Crc16
  import opened ErrorDetection

  const TOP: bv16 := 0x8000
  const PERIOD: nat := 32767

  predicate Returns(n: nat) { Shifts(n, TOP) == TOP }

  // ---------- products: shifting by m + n from the results of m and of n ----------

  function PickTop(d: bv16, v: bv16): bv16 { if d & 0x8000 != 0 then v else 0 }

  /** One coefficient of d, the highest, into the product so far. */
  function Into(p: bv16, v: bv16, d: bv16): bv16 { Xor(Shift1(p), PickTop(d, v)) }

  /** The product of v by the n highest coefficients of d, in the ring where 0x8000 is one. */
  function Product(n: nat, v: bv16, d: bv16): bv16 {
    if n == 0 then 0 else Into(Product(n - 1, v, d << 1), v, d)
  }

  /** Four coefficients at once, and the sixteen of a whole register. */
  function Into4(p: bv16, v: bv16, d: bv16): bv16 {
    Into(Into(Into(Into(p, v, d << 3), v, d << 2), v, d << 1), v, d)
  }

  function Product16(v: bv16, d: bv16): bv16 {
    Into4(Into4(Into4(Into4(0, v, d << 12), v, d << 8), v, d << 4), v, d)
  }

  lemma FourMore(n: nat, v: bv16, d: bv16)
    ensures Product(n + 4, v, d) == Into4(Product(n, v, d << 4), v, d)
  {
    assert d << 1 << 1 == d << 2 && d << 2 << 1 == d << 3 && d << 3 << 1 == d << 4;
    assert Product(n + 1, v, d << 3) == Into(Product(n, v, d << 4), v, d << 3);
    assert Product(n + 2, v, d << 2) == Into(Product(n + 1, v, d << 3), v, d << 2);
    assert Product(n + 3, v, d << 1) == Into(Product(n + 2, v, d << 2), v, d << 1);
  }

  lemma SixteenCoefficients(v: bv16, d: bv16)
    ensures Product(16, v, d) == Product16(v, d)
  {
    assert d << 4 << 4 == d << 8 && d << 8 << 4 == d << 12;
    FourMore(0, v, d << 12);
    FourMore(4, v, d << 8);
    FourMore(8, v, d << 4);
    FourMore(12, v, d);
  }

  lemma ShiftsOfPick(m: nat, d: bv16, v: bv16)
    ensures Shifts(m, PickTop(d, v)) == PickTop(d, Shifts(m, v))
  {
    ShiftsZero(m, 0);
  }

  lemma {:induction false} ShiftsCommute(m: nat, c: bv16)
    ensures Shifts(m, Shift1(c)) == Shift1(Shifts(m, c))
  {
    if m > 0 {
      ShiftsCommute(m - 1, c);
    }
  }

  lemma {:induction false} ShiftsOfProduct(m: nat, n: nat, v: bv16, d: bv16)
    ensures Shifts(m, Product(n, v, d)) == Product(n, Shifts(m, v), d)
  {
    if n == 0 {
      ShiftsZero(m, 0);
    } else {
      var p := Product(n - 1, v, d << 1);
      ShiftsOfProduct(m, n - 1, v, d << 1);
      ShiftsLinear(m, Shift1(p), PickTop(d, v), Product(n, v, d));
      ShiftsCommute(m, p);
      ShiftsOfPick(m, d, v);
    }
  }

  lemma Leap(m: nat, v: bv16, n: nat, w: bv16, r: bv16)
    requires Shifts(m, TOP) == v && Shifts(n, TOP) == w
    requires Product16(TOP, w) == w && Product16(v, w) == r
    ensures Shifts(m + n, TOP) == r
  {
    ShiftsAdd(m, n, TOP);
    SixteenCoefficients(TOP, w);
    SixteenCoefficients(v, w);
    ShiftsOfProduct(m, 16, TOP, w);
  }

  lemma PowersTo128()
    ensures Shifts(1, TOP) == 0x4000
    ensures Shifts(8, TOP) == 0x0080
    ensures Shifts(16, TOP) == 0xA001
    ensures Shifts(32, TOP) == 0xE801
    ensures Shifts(64, TOP) == 0xC881
    ensures Shifts(128, TOP) == 0x6080
  {
    Leap(1, 0x4000, 1, 0x4000, 0x2000);
    Leap(2, 0x2000, 2, 0x2000, 0x0800);
    Leap(4, 0x0800, 4, 0x0800, 0x0080);
    Leap(8, 0x0080, 8, 0x0080, 0xA001);
    Leap(16, 0xA001, 16, 0xA001, 0xE801);
    Leap(32, 0xE801, 32, 0xE801, 0xC881);
    Leap(64, 0xC881, 64, 0xC881, 0x6080);
  }

  lemma PowersTo4096()
    ensures Shifts(512, TOP) == 0xE081
    ensures Shifts(1024, TOP) == 0x6800
    ensures Shifts(4096, TOP) == 0xA881
  {
    PowersTo128();
    Leap(128, 0x6080, 128, 0x6080, 0x8801);
    Leap(256, 0x8801, 256, 0x8801, 0xE081);
    Leap(512, 0xE081, 512, 0xE081, 0x6800);
    Leap(1024, 0x6800, 1024, 0x6800, 0x2880);
    Leap(2048, 0x2880, 2048, 0x2880, 0xA881);
  }

  /** 217 = 32767 / 151 shifts do not return. */
  lemma NotAt217()
    ensures !Returns(217)
  {
    PowersTo128();
    Leap(128, 0x6080, 64, 0xC881, 0x6668);
    Leap(192, 0x6668, 16, 0xA001, 0xEAAF);
    Leap(208, 0xEAAF, 8, 0x0080, 0x7CAA);
    Leap(216, 0x7CAA, 1, 0x4000, 0x3E55);
  }

  /** 1057 = 32767 / 31 shifts do not return. */
  lemma NotAt1057()
    ensures !Returns(1057)
  {
    PowersTo128();
    PowersTo4096();
    Leap(1024, 0x6800, 32, 0xE801, 0xDC81);
    Leap(1056, 0xDC81, 1, 0x4000, 0xCE41);
  }

  /** 4681 = 32767 / 7 shifts do not return. */
  lemma NotAt4681()
    ensures !Returns(4681)
  {
    PowersTo128();
    PowersTo4096();
    Leap(4096, 0xA881, 512, 0xE081, 0x7A48);
    Leap(4608, 0x7A48, 64, 0xC881, 0x51DE);
    Leap(4672, 0x51DE, 8, 0x0080, 0x58D1);
    Leap(4680, 0x58D1, 1, 0x4000, 0x8C69);
  }

  lemma Shift1Injective(c: bv16, d: bv16)
    ensures Shift1(c) == Shift1(d) ==> c == d
  {}

  /** 32767 shifts do: 32768 give what one gives. */
  lemma ReturnsAtPeriod()
    ensures Returns(PERIOD)
  {
    PowersTo4096();
    Leap(4096, 0xA881, 4096, 0xA881, 0x4880);
    Leap(8192, 0x4880, 8192, 0x4880, 0x8081);
    Leap(16384, 0x8081, 16384, 0x8081, 0x4000);
    assert Shifts(1, TOP) == Shift1(TOP);
    Shift1Injective(Shifts(PERIOD, TOP), TOP);
  }

  // ---------- the period ----------

  lemma ReturnsStep(n: nat, m: nat)
    requires Returns(m) && n >= m
    ensures Returns(n) <==> Returns(n - m)
  {
    ShiftsAdd(n - m, m, TOP);
  }

  lemma {:induction false} ReturnsMod(n: nat, m: nat)
    requires Returns(m) && m > 0
    ensures Returns(n) <==> Returns(n % m)
  {
    if n >= m {
      ReturnsStep(n, m);
      ReturnsMod(n - m, m);
      assert n % m == (n - m) % m by {
        ModOfDifference(n, m);
      }
    }
  }

  lemma ModOfDifference(n: nat, m: nat)
    requires 0 < m <= n
    ensures n % m == (n - m) % m
  {
    var q, r := (n - m) / m, (n - m) % m;
    assert n == (q + 1) * m + r;
    QuotientUnique(n, m, q + 1, r);
  }

  lemma QuotientUnique(n: nat, m: nat, q: nat, r: nat)
    requires 0 < m && r < m && n == q * m + r
    ensures n % m == r
  {
    var d := n / m - q;
    assert n == (n / m) * m + n % m;
    assert d * m == r - n % m;
    NoSmallMultiple(d, m);
  }

  lemma NoSmallMultiple(d: int, m: nat)
    requires 0 < m
    ensures 0 - m < d * m < m ==> d == 0
  {}

  ghost predicate LeastReturn(p: nat) {
    0 < p && Returns(p) && forall q :: 0 < q < p ==> !Returns(q)
  }

  lemma {:induction false} LeastReturnExists(n: nat) returns (p: nat)
    requires 0 < n && Returns(n)
    ensures 0 < p <= n && LeastReturn(p)
  {
    if q: nat :| 0 < q < n && Returns(q) {
      p := LeastReturnExists(q);
    } else {
      p := n;
    }
  }

  /** 7 is prime. */
  lemma SevenDivides(p: nat, q: nat, n: nat)
    requires p * q == 7 * n
    ensures p % 7 == 0 || q % 7 == 0
  {
    var u, s, v, t := p / 7, p % 7, q / 7, q % 7;
    assert p * q == 7 * (7 * u * v + u * t + s * v) + s * t;
    Seven(s, t, n - (7 * u * v + u * t + s * v));
  }

  lemma Seven(s: nat, t: nat, k: int)
    requires s < 7 && t < 7 && s * t == 7 * k
    ensures s == 0 || t == 0
  {
    assert s == 0 || s == 1 || s == 2 || s == 3 || s == 4 || s == 5 || s == 6;
  }

  /** 31 is prime. */
  lemma ThirtyOneDivides(p: nat, q: nat, n: nat)
    requires p * q == 31 * n
    ensures p % 31 == 0 || q % 31 == 0
  {
    var u, s, v, t := p / 31, p % 31, q / 31, q % 31;
    assert p * q == 31 * (31 * u * v + u * t + s * v) + s * t;
    ThirtyOne(s, t, n - (31 * u * v + u * t + s * v));
  }

  lemma ThirtyOne(s: nat, t: nat, k: int)
    requires s < 31 && t < 31 && s * t == 31 * k
    ensures s == 0 || t == 0
  {
    assert s == 0 || s == 1 || s == 2 || s == 3 || s == 4 || s == 5 || s == 6 || s == 7 || s == 8 || s == 9 || s == 10
        || s == 11 || s == 12 || s == 13 || s == 14 || s == 15 || s >= 16;
    if s >= 16 {
      assert s == 16 || s == 17 || s == 18 || s == 19 || s == 20 || s == 21 || s == 22 || s == 23 || s == 24 || s == 25
          || s == 26 || s == 27 || s == 28 || s == 29 || s == 30;
    }
  }

  lemma ProductAtLeast(b: nat, q: nat)
    requires b >= 13 && q >= 13
    ensures b * q >= 169
  {}

  /** 151 is prime. */
  lemma Factors151(b: nat, q: nat)
    requires b * q == 151
    ensures b == 1 || q == 1
  {
    if b <= 12 {
      assert b == 0 || b == 1 || b == 2 || b == 3 || b == 4 || b == 5 || b == 6 || b == 7 || b == 8 || b == 9
          || b == 10 || b == 11 || b == 12;
    } else if q <= 12 {
      assert q == 0 || q == 1 || q == 2 || q == 3 || q == 4 || q == 5 || q == 6 || q == 7 || q == 8 || q == 9
          || q == 10 || q == 11 || q == 12;
    } else {
      ProductAtLeast(b, q);
    }
  }

  /** A divisor of the period other than itself divides one of its three maximal divisors. */
  lemma ProperDivisor(p: nat, q: nat)
    requires p * q == PERIOD && q > 1
    ensures exists k: nat :: k * p == 217 || k * p == 1057 || k * p == 4681
  {
    SevenDivides(p, q, 4681);
    if q % 7 == 0 {
      assert (q / 7) * p == 4681;
    } else {
      var a := p / 7;
      assert a * q == 4681;
      ThirtyOneDivides(a, q, 151);
      if q % 31 == 0 {
        assert (q / 31) * p == 1057;
      } else {
        Factors151(a / 31, q);
        assert 1 * p == 217;
      }
    }
  }

  lemma {:induction false} ReturnsMultiple(k: nat, p: nat)
    requires Returns(p)
    ensures Returns(k * p)
  {
    if k > 0 {
      ReturnsMultiple(k - 1, p);
      assert k * p == (k - 1) * p + p;
      ShiftsAdd((k - 1) * p, p, TOP);
    }
  }

  lemma LeastReturnIsPeriod(p: nat)
    requires LeastReturn(p) && p <= PERIOD
    ensures p == PERIOD
  {
    ReturnsAtPeriod();
    ReturnsMod(PERIOD, p);
    var q := PERIOD / p;
    assert PERIOD % p == 0;
    assert p * q == PERIOD;
    if q > 1 {
      ProperDivisor(p, q);
      var k: nat :| k * p == 217 || k * p == 1057 || k * p == 4681;
      ReturnsMultiple(k, p);
      NotAt217();
      NotAt1057();
      NotAt4681();
    }
  }

  /** The period is exactly 32767. */
  lemma PeriodExact(n: nat)
    ensures Returns(n) <==> n % PERIOD == 0
  {
    ReturnsAtPeriod();
    var p := LeastReturnExists(PERIOD);
    LeastReturnIsPeriod(p);
    ReturnsMod(n, PERIOD);
  }
}
