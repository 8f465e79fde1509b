/** The order of x modulo the generator: x^n is 1 for no n strictly between 0 and
    32767.  The generator is (x + 1) times a primitive polynomial of degree 15. */
module CrcOrder {
  import opened Crc16

  const ONE := Register(1)

  const ORDER := 32767

  // ---- multiplication of residues, to reach large powers by squaring ----

  /** One step of Horner's rule: acc * x + a * bit. */
  function TimesBit(acc: Register, a: Register, b: Register, mask: bv16): Register {
    acc.TimesX().Plus(if b.word & mask != 0 then a else ZERO)
  }

  function TimesByte(acc: Register, a: Register, b: Register): Register {
    TimesBit(TimesBit(TimesBit(TimesBit(TimesBit(TimesBit(TimesBit(TimesBit(
      acc, a, b, 0x8000), a, b, 0x4000), a, b, 0x2000), a, b, 0x1000),
      a, b, 0x0800), a, b, 0x0400), a, b, 0x0200), a, b, 0x0100)
  }

  function Times(a: Register, b: Register): Register {
    TimesByte(TimesByte(ZERO, a, b), a, Register(b.word << 8))
  }

  lemma TimesBitShift(acc: Register, a: Register, b: Register, mask: bv16)
    ensures TimesBit(acc.TimesX(), a.TimesX(), b, mask) == TimesBit(acc, a, b, mask).TimesX()
  {
    var d := if b.word & mask != 0 then a else ZERO;
    TimesXLinear(acc.TimesX(), d);
    PowerZero(1);
    assert TimesXPower(1, ZERO) == ZERO.TimesX();
  }

  lemma TimesByteShift(acc: Register, a: Register, b: Register)
    ensures TimesByte(acc.TimesX(), a.TimesX(), b) == TimesByte(acc, a, b).TimesX()
  {
    var c1 := TimesBit(acc, a, b, 0x8000);
    var c2 := TimesBit(c1, a, b, 0x4000);
    var c3 := TimesBit(c2, a, b, 0x2000);
    var c4 := TimesBit(c3, a, b, 0x1000);
    var c5 := TimesBit(c4, a, b, 0x0800);
    var c6 := TimesBit(c5, a, b, 0x0400);
    var c7 := TimesBit(c6, a, b, 0x0200);
    TimesBitShift(acc, a, b, 0x8000);
    TimesBitShift(c1, a, b, 0x4000);
    TimesBitShift(c2, a, b, 0x2000);
    TimesBitShift(c3, a, b, 0x1000);
    TimesBitShift(c4, a, b, 0x0800);
    TimesBitShift(c5, a, b, 0x0400);
    TimesBitShift(c6, a, b, 0x0200);
    TimesBitShift(c7, a, b, 0x0100);
  }

  lemma TimesShift(a: Register, b: Register)
    ensures Times(a.TimesX(), b) == Times(a, b).TimesX()
  {
    PowerZero(1);
    assert TimesXPower(1, ZERO) == ZERO.TimesX();
    TimesByteShift(ZERO, a, b);
    TimesByteShift(TimesByte(ZERO, a, b), a, Register(b.word << 8));
  }

  lemma {:induction false} TimesPower(m: nat, a: Register, b: Register)
    ensures Times(TimesXPower(m, a), b) == TimesXPower(m, Times(a, b))
  {
    if m > 0 {
      TimesShift(a, b);
      TimesPower(m - 1, a.TimesX(), b);
    }
  }

  /** One multiplication of an addition chain of exponents. */
  lemma Product(m: nat, p: Register, n: nat, q: Register, r: Register)
    requires TimesXPower(m, ONE) == p && TimesXPower(n, ONE) == q
    requires Times(ONE, q) == q && Times(p, q) == r
    ensures TimesXPower(m + n, ONE) == r
  {
    TimesPower(m, ONE, q);
    PowerAdd(m, n, ONE);
  }

  lemma SmallPowers()
    ensures TimesXPower(1, ONE) == Register(0x0002)
    ensures TimesXPower(8, ONE) == Register(0x0100)
    ensures TimesXPower(16, ONE) == Register(0x1021)
  {
    EightSteps(ONE);
    EightSteps(Register(0x0100));
    PowerAdd(8, 8, ONE);
    assert TimesXPower(1, ONE) == ONE.TimesX();
  }

  /** The squarings of an addition chain: x^32 to x^32768. */
  lemma Squares()
    ensures TimesXPower(32, ONE) == Register(0x3730)
    ensures TimesXPower(64, ONE) == Register(0xb861)
    ensures TimesXPower(128, ONE) == Register(0xaefc)
    ensures TimesXPower(256, ONE) == Register(0x8e29)
    ensures TimesXPower(512, ONE) == Register(0x13fc)
    ensures TimesXPower(1024, ONE) == Register(0x36c4)
    ensures TimesXPower(2048, ONE) == Register(0xfd50)
    ensures TimesXPower(4096, ONE) == Register(0xaa9e)
    ensures TimesXPower(8192, ONE) == Register(0x881c)
    ensures TimesXPower(16384, ONE) == Register(0x4458)
    ensures TimesXPower(32768, ONE) == Register(0x0002)
  {
    SmallPowers();
    Product(16, Register(0x1021), 16, Register(0x1021), Register(0x3730));
    Product(32, Register(0x3730), 32, Register(0x3730), Register(0xb861));
    Product(64, Register(0xb861), 64, Register(0xb861), Register(0xaefc));
    Product(128, Register(0xaefc), 128, Register(0xaefc), Register(0x8e29));
    Product(256, Register(0x8e29), 256, Register(0x8e29), Register(0x13fc));
    Product(512, Register(0x13fc), 512, Register(0x13fc), Register(0x36c4));
    Product(1024, Register(0x36c4), 1024, Register(0x36c4), Register(0xfd50));
    Product(2048, Register(0xfd50), 2048, Register(0xfd50), Register(0xaa9e));
    Product(4096, Register(0xaa9e), 4096, Register(0xaa9e), Register(0x881c));
    Product(8192, Register(0x881c), 8192, Register(0x881c), Register(0x4458));
    Product(16384, Register(0x4458), 16384, Register(0x4458), Register(0x0002));
  }

  lemma Power217()
    ensures TimesXPower(217, ONE) != ONE
  {
    SmallPowers();
    Squares();
    Product(128, Register(0xaefc), 64, Register(0xb861), Register(0x650b));
    Product(192, Register(0x650b), 16, Register(0x1021), Register(0x45b4));
    Product(208, Register(0x45b4), 8, Register(0x0100), Register(0xac61));
    Product(216, Register(0xac61), 1, Register(0x0002), Register(0x48e3));
  }

  lemma Power1057()
    ensures TimesXPower(1057, ONE) != ONE
  {
    SmallPowers();
    Squares();
    Product(1024, Register(0x36c4), 32, Register(0x3730), Register(0xf147));
    Product(1056, Register(0xf147), 1, Register(0x0002), Register(0xf2af));
  }

  lemma Power4681()
    ensures TimesXPower(4681, ONE) != ONE
  {
    SmallPowers();
    Squares();
    Product(4096, Register(0xaa9e), 512, Register(0x13fc), Register(0x54a0));
    Product(4608, Register(0x54a0), 64, Register(0xb861), Register(0x0106));
    Product(4672, Register(0x0106), 8, Register(0x0100), Register(0x1621));
    Product(4680, Register(0x1621), 1, Register(0x0002), Register(0x2c42));
  }

  lemma PowerOrder()
    ensures TimesXPower(ORDER, ONE) == ONE
  {
    SmallPowers();
    Squares();
    PowerAdd(1, ORDER, ONE);
    PowerInjective(1, TimesXPower(ORDER, ONE), ONE);
  }

  // ---- a smaller period would divide 32767 ----

  lemma {:induction false} PeriodMultiple(d: nat, k: nat)
    requires TimesXPower(d, ONE) == ONE
    ensures TimesXPower(d * k, ONE) == ONE
  {
    if k > 0 {
      PeriodMultiple(d, k - 1);
      PowerAdd(d, d * (k - 1), ONE);
      assert d + d * (k - 1) == d * k;
    }
  }

  lemma PeriodRemainder(d: nat, n: nat)
    requires d > 0 && TimesXPower(d, ONE) == ONE && TimesXPower(n, ONE) == ONE
    ensures TimesXPower(n % d, ONE) == ONE
  {
    PeriodMultiple(d, n / d);
    PowerAdd(n % d, d * (n / d), ONE);
  }

  /** The least period up to d. */
  lemma {:induction false} LeastPeriod(d: nat, n: nat) returns (e: nat)
    requires 0 < d && TimesXPower(d, ONE) == ONE
    requires forall k :: 0 < k < n ==> TimesXPower(k, ONE) != ONE
    requires n <= d
    ensures 0 < e <= d && TimesXPower(e, ONE) == ONE
    ensures forall k :: 0 < k < e ==> TimesXPower(k, ONE) != ONE
    decreases d - n
  {
    if n > 0 && TimesXPower(n, ONE) == ONE {
      e := n;
    } else if n == d {
      e := d;
    } else {
      e := LeastPeriod(d, n + 1);
    }
  }

  lemma FewSmallDivisors(c: nat)
    requires 2 <= c <= 90 && ORDER % c == 0
    ensures c == 7 || c == 31
  {
    if c <= 30 {
    } else if c <= 60 {
    }
  }

  lemma FewMediumDivisors(c: nat)
    requires 90 < c <= 181 && ORDER % c == 0
    ensures c == 151
  {
    if c <= 120 {
    } else if c <= 150 {
    }
  }

  lemma NoRemainder(d: nat, e: nat, q: nat, r: nat)
    requires d * e == q * e + r && r < e
    ensures r == 0
  {
    if d > q {
      AtLeastOnce(d - q, e);
    } else if d < q {
      AtLeastOnce(q - d, e);
    }
  }

  lemma AtLeastOnce(k: nat, e: nat)
    requires k >= 1
    ensures k * e >= e
  {
    assert k * e == (k - 1) * e + e;
  }

  lemma ProductDivisible(d: nat, e: nat, n: nat)
    requires e > 0 && n == d * e
    ensures n % e == 0
  {
    NoRemainder(d, e, n / e, n % e);
  }

  lemma FewDivisors(c: nat)
    requires 2 <= c <= 181 && ORDER % c == 0
    ensures c == 7 || c == 31 || c == 151
  {
    if c <= 90 {
      FewSmallDivisors(c);
    } else {
      FewMediumDivisors(c);
    }
  }

  lemma LargeProduct(d: nat, e: nat)
    requires d >= 182 && e >= 182
    ensures d * e > ORDER
  {
    assert d * e >= 182 * e;
  }

  lemma CoFactor(d: nat, e: nat)
    requires d * e == ORDER && (e == 7 || e == 31 || e == 151)
    ensures d == 4681 || d == 1057 || d == 217
  {}

  lemma ProperDivisor(d: nat)
    requires 1 < d < ORDER && ORDER % d == 0
    ensures d == 7 || d == 31 || d == 151 || d == 4681 || d == 1057 || d == 217
  {
    var e := ORDER / d;
    assert d * e == ORDER;
    if d <= 181 {
      FewDivisors(d);
    } else if e <= 181 {
      ProductDivisible(d, e, ORDER);
      assert e != 1;
      FewDivisors(e);
      CoFactor(d, e);
    } else {
      LargeProduct(d, e);
    }
  }

  lemma NoPeriod(d: nat, n: nat)
    requires 0 < d && n % d == 0 && TimesXPower(n, ONE) != ONE
    ensures TimesXPower(d, ONE) != ONE
  {
    if TimesXPower(d, ONE) == ONE {
      PeriodMultiple(d, n / d);
    }
  }

  lemma NoProperPeriod(d: nat)
    requires 0 < d < ORDER && ORDER % d == 0
    ensures TimesXPower(d, ONE) != ONE
  {
    if d == 1 {
      SmallPowers();
    } else {
      ProperDivisor(d);
      Power217();
      Power1057();
      Power4681();
      NoPeriod(d, if 217 % d == 0 then 217 else if 1057 % d == 0 then 1057 else 4681);
    }
  }

  lemma NoShorterPeriod(k: nat)
    requires 0 < k < ORDER
    ensures TimesXPower(k, ONE) != ONE
  {
    if TimesXPower(k, ONE) == ONE {
      var d := LeastPeriod(k, 1);
      PowerOrder();
      PeriodRemainder(d, ORDER);
      NoProperPeriod(d);
    }
  }

  /** x has order 32767: exactly the multiples of it bring the register back. */
  lemma OrderOfX(k: nat)
    ensures TimesXPower(k, ONE) == ONE <==> k % ORDER == 0
  {
    PowerOrder();
    if TimesXPower(k, ONE) == ONE {
      PeriodRemainder(ORDER, k);
      if k % ORDER != 0 {
        NoShorterPeriod(k % ORDER);
      }
    }
    if k % ORDER == 0 {
      PeriodMultiple(ORDER, k / ORDER);
    }
  }
}
