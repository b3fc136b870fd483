/**
 The register as the residues of polynomials modulo x^16 + x^12 + x^5 + 1: one turn multiplies by
 x, and x returns to one after 32767 turns and no sooner.
 */
module CrcOrder {
  import opened Crc16
  import opened CrcBits
  import opened CrcBursts

  const ONE := Reg(1)

  /** x to the n. */
  function Power(n: nat): Reg { ShiftN(ONE, n) }

  lemma {:induction false} ShiftNSum(a: Reg, m: nat, n: nat)
    ensures ShiftN(a, m + n) == ShiftN(ShiftN(a, m), n)
    decreases n
  {
    hide Shift;
    if n > 0 {
      ShiftNSum(a, m, n - 1);
    }
  }

  lemma {:induction false} ShiftNShift(a: Reg, n: nat)
    ensures ShiftN(Shift(a), n) == Shift(ShiftN(a, n))
    decreases n
  {
    hide Shift;
    if n > 0 {
      ShiftNShift(a, n - 1);
    }
  }

  lemma ShiftNZero(n: nat)
    ensures ShiftN(ZERO, n) == ZERO
  {
    hide Shift, Xor, ShiftN;
    XorSelf(ZERO);
    ShiftNLinear(ZERO, ZERO, n);
    XorSelf(ShiftN(ZERO, n));
  }

  // ---- multiplication ------------------------------------------------------------------

  /** The product so far, and the bits of the factor still to come. */
  datatype Product = Product(acc: Reg, rest: Reg)

  function Turn(p: Product, b: Reg): Product {
    Product(if Top(p.rest) then Xor(Shift(p.acc), b) else Shift(p.acc), Shl(p.rest))
  }

  function Turn4(p: Product, b: Reg): Product { Turn(Turn(Turn(Turn(p, b), b), b), b) }

  function Mul(a: Reg, b: Reg): Reg { Turn4(Turn4(Turn4(Turn4(Product(ZERO, a), b), b), b), b).acc }

  function TurnN(p: Product, b: Reg, n: nat): Product { if n == 0 then p else Turn(TurnN(p, b, n - 1), b) }

  lemma TurnNFour(p: Product, b: Reg, n: nat)
    ensures TurnN(p, b, n + 4) == Turn4(TurnN(p, b, n), b)
  {
    hide Turn;
    assert TurnN(p, b, n + 2) == Turn(Turn(TurnN(p, b, n), b), b);
  }

  lemma MulIs(a: Reg, b: Reg)
    ensures Mul(a, b) == TurnN(Product(ZERO, a), b, 16).acc
  {
    hide Turn, Turn4;
    var p := Product(ZERO, a);
    TurnNFour(p, b, 0);
    TurnNFour(p, b, 4);
    TurnNFour(p, b, 8);
    TurnNFour(p, b, 12);
  }

  lemma PushLow(x: Reg, m: Reg, bit: bool)
    requires Fits(x, m) && !Top(m)
    ensures PushBit(x, bit) == if bit then Xor(Shift(x), ONE) else Shift(x)
  {
    hide Fits, Top, Shift, Shl, Xor, PushBit;
    FitsNoTop(x, m);
    ShiftLow(x);
    PushIs(x, bit);
    XorNothing(Shl(x));
  }

  lemma {:induction false} LeadingFits(a: Reg, k: nat)
    requires k <= 15
    ensures Fits(Pack(TopBits(a, k)), Mask(k)) && !Top(Mask(k))
  {
    hide Fits, Top, Pack, TopBits, Mask;
    PackFits(TopBits(a, k), k);
    MaskIsLow(k);
  }

  lemma PackSnoc(bits: seq<bool>, bit: bool)
    ensures Pack(bits + [bit]) == PushBit(Pack(bits), bit)
  {
    assert (bits + [bit])[..|bits|] == bits;
  }

  /** After k turns the product is that of the leading k bits. */
  lemma {:induction false} LeadingProduct(a: Reg, n: nat, k: nat)
    requires k <= 16
    ensures TurnN(Product(ZERO, a), Power(n), k) == Product(ShiftN(Pack(TopBits(a, k)), n), ShlN(a, k))
    decreases k
  {
    hide Shift, Xor, Top, Shl, PushBit, Pack, Fits, Mask;
    if k == 0 {
      ShiftNZero(n);
      NothingPacked();
    } else {
      var x, bit := Pack(TopBits(a, k - 1)), Top(ShlN(a, k - 1));
      LeadingProduct(a, n, k - 1);
      PackSnoc(TopBits(a, k - 1), bit);
      LeadingFits(a, k - 1);
      PushLow(x, Mask(k - 1), bit);
      ShiftNShift(x, n);
      ShiftNLinear(Shift(x), ONE, n);
    }
  }

  lemma NothingPacked() ensures Pack([]) == ZERO {}

  lemma PackTopBits(a: Reg)
    ensures Pack(TopBits(a, 16)) == a
  {
    hide Pack, TopBits;
    TopBitsOfPack(TopBits(a, 16));
    assert (Zeros(16) + TopBits(a, 16))[16..] == TopBits(a, 16);
    RegDetermined(Pack(TopBits(a, 16)), a);
  }

  /** Multiplying by a power of x is shifting that often. */
  lemma MulPower(a: Reg, n: nat)
    ensures Mul(a, Power(n)) == ShiftN(a, n)
  {
    hide Shift, Turn, Mul, Pack, TopBits;
    MulIs(a, Power(n));
    LeadingProduct(a, n, 16);
    PackTopBits(a);
  }

  lemma PowerSum(m: nat, n: nat)
    ensures Power(m + n) == Mul(Power(m), Power(n))
  {
    hide Shift, Mul;
    ShiftNSum(ONE, m, n);
    MulPower(Power(m), n);
  }

  lemma PowerIs(m: nat, n: nat, a: Reg, b: Reg)
    requires Power(m) == a && Power(n) == b
    ensures Power(m + n) == Mul(a, b)
  {
    hide Mul, Power;
    PowerSum(m, n);
  }

  // ---- the powers needed ---------------------------------------------------------------

  /** x doubled in its exponent, fifteen times over. */
  lemma Squares()
    ensures Mul(Reg(0x2), Reg(0x2)) == Reg(0x4)
    ensures Mul(Reg(0x4), Reg(0x4)) == Reg(0x10)
    ensures Mul(Reg(0x10), Reg(0x10)) == Reg(0x100)
    ensures Mul(Reg(0x100), Reg(0x100)) == Reg(0x1021)
    ensures Mul(Reg(0x1021), Reg(0x1021)) == Reg(0x3730)
    ensures Mul(Reg(0x3730), Reg(0x3730)) == Reg(0xB861)
    ensures Mul(Reg(0xB861), Reg(0xB861)) == Reg(0xAEFC)
    ensures Mul(Reg(0xAEFC), Reg(0xAEFC)) == Reg(0x8E29)
    ensures Mul(Reg(0x8E29), Reg(0x8E29)) == Reg(0x13FC)
    ensures Mul(Reg(0x13FC), Reg(0x13FC)) == Reg(0x36C4)
    ensures Mul(Reg(0x36C4), Reg(0x36C4)) == Reg(0xFD50)
    ensures Mul(Reg(0xFD50), Reg(0xFD50)) == Reg(0xAA9E)
    ensures Mul(Reg(0xAA9E), Reg(0xAA9E)) == Reg(0x881C)
    ensures Mul(Reg(0x881C), Reg(0x881C)) == Reg(0x4458)
    ensures Mul(Reg(0x4458), Reg(0x4458)) == Reg(0x2)
  {
  }

  lemma Products()
    ensures Mul(Reg(0xAEFC), Reg(0xB861)) == Reg(0x650B)
    ensures Mul(Reg(0x650B), Reg(0x1021)) == Reg(0x45B4)
    ensures Mul(Reg(0x45B4), Reg(0x100)) == Reg(0xAC61)
    ensures Mul(Reg(0xAC61), Reg(0x2)) == Reg(0x48E3)
    ensures Mul(Reg(0x36C4), Reg(0x3730)) == Reg(0xF147)
    ensures Mul(Reg(0xF147), Reg(0x2)) == Reg(0xF2AF)
    ensures Mul(Reg(0xAA9E), Reg(0x13FC)) == Reg(0x54A0)
    ensures Mul(Reg(0x54A0), Reg(0xB861)) == Reg(0x106)
    ensures Mul(Reg(0x106), Reg(0x100)) == Reg(0x1621)
    ensures Mul(Reg(0x1621), Reg(0x2)) == Reg(0x2C42)
  {
  }

  lemma PowersOfTwo()
    ensures Power(1) == Reg(0x2)
    ensures Power(2) == Reg(0x4)
    ensures Power(4) == Reg(0x10)
    ensures Power(8) == Reg(0x100)
    ensures Power(16) == Reg(0x1021)
    ensures Power(32) == Reg(0x3730)
    ensures Power(64) == Reg(0xB861)
    ensures Power(128) == Reg(0xAEFC)
    ensures Power(256) == Reg(0x8E29)
    ensures Power(512) == Reg(0x13FC)
    ensures Power(1024) == Reg(0x36C4)
    ensures Power(2048) == Reg(0xFD50)
    ensures Power(4096) == Reg(0xAA9E)
    ensures Power(8192) == Reg(0x881C)
    ensures Power(16384) == Reg(0x4458)
    ensures Power(32768) == Reg(0x2)
  {
    hide Mul, Power;
    Squares();
    FirstPower();
    PowerIs(1, 1, Reg(0x2), Reg(0x2));
    PowerIs(2, 2, Reg(0x4), Reg(0x4));
    PowerIs(4, 4, Reg(0x10), Reg(0x10));
    PowerIs(8, 8, Reg(0x100), Reg(0x100));
    PowerIs(16, 16, Reg(0x1021), Reg(0x1021));
    PowerIs(32, 32, Reg(0x3730), Reg(0x3730));
    PowerIs(64, 64, Reg(0xB861), Reg(0xB861));
    PowerIs(128, 128, Reg(0xAEFC), Reg(0xAEFC));
    PowerIs(256, 256, Reg(0x8E29), Reg(0x8E29));
    PowerIs(512, 512, Reg(0x13FC), Reg(0x13FC));
    PowerIs(1024, 1024, Reg(0x36C4), Reg(0x36C4));
    PowerIs(2048, 2048, Reg(0xFD50), Reg(0xFD50));
    PowerIs(4096, 4096, Reg(0xAA9E), Reg(0xAA9E));
    PowerIs(8192, 8192, Reg(0x881C), Reg(0x881C));
    PowerIs(16384, 16384, Reg(0x4458), Reg(0x4458));
  }

  lemma FirstPower()
    ensures Power(0) == ONE && Power(1) == Reg(2)
  {
  }

  /** x to the 32767 is one; to the 32767 divided by one of its three prime factors it is not. */
  lemma SomePowers()
    ensures Power(32767) == ONE
    ensures Power(4681) != ONE && Power(1057) != ONE && Power(217) != ONE
  {
    hide Mul, Power, Shift;
    PowersOfTwo();
    Products();
    FirstPower();
    OneMore(32767);
    OneMore(0);
    ShiftInjective(Power(32767), ONE);
    PowerIs(128, 64, Reg(0xAEFC), Reg(0xB861));
    PowerIs(192, 16, Reg(0x650B), Reg(0x1021));
    PowerIs(208, 8, Reg(0x45B4), Reg(0x100));
    PowerIs(216, 1, Reg(0xAC61), Reg(0x2));
    PowerIs(1024, 32, Reg(0x36C4), Reg(0x3730));
    PowerIs(1056, 1, Reg(0xF147), Reg(0x2));
    PowerIs(4096, 512, Reg(0xAA9E), Reg(0x13FC));
    PowerIs(4608, 64, Reg(0x54A0), Reg(0xB861));
    PowerIs(4672, 8, Reg(0x106), Reg(0x100));
    PowerIs(4680, 1, Reg(0x1621), Reg(0x2));
  }

  lemma OneMore(n: nat)
    ensures Power(n + 1) == Shift(Power(n))
  {
  }

  // ---- the order of x ------------------------------------------------------------------

  predicate Period(n: nat) { Power(n) == ONE }

  lemma PeriodDrops(m: nat, n: nat)
    requires Period(n)
    ensures Period(m + n) <==> Period(m)
  {
    hide Shift, ShiftN;
    ShiftNSum(ONE, n, m);
  }

  lemma {:induction false} PeriodTimes(m: nat, n: nat, t: nat)
    requires Period(n)
    ensures Period(m + t * n) <==> Period(m)
    decreases t
  {
    hide Period;
    if t > 0 {
      PeriodTimes(m, n, t - 1);
      PeriodDrops(m + (t - 1) * n, n);
      assert m + t * n == (m + (t - 1) * n) + n;
    }
  }

  /** The primes that divide 32767. */
  predicate Factor(p: nat) { p == 7 || p == 31 || p == 151 }

  lemma NoProduct(p: nat, k: nat, q: nat)
    requires Factor(p) && 1 < k < p && 1 < q && k <= q
    ensures k * q != p
  {
    if k <= 12 {
      assert k == 2 || k == 3 || k == 4 || k == 5 || k == 6 || k == 7
          || k == 8 || k == 9 || k == 10 || k == 11 || k == 12;
    } else {
      assert k * q >= 13 * 13 by { Grows(k, q); }
    }
  }

  lemma Grows(k: nat, q: nat)
    requires k >= 13 && q >= 13
    ensures k * q >= 13 * 13
  {
  }

  lemma Prime(p: nat, k: nat)
    requires Factor(p) && 1 < k < p
    ensures p % k != 0
  {
    if p % k == 0 {
      var q := p / k;
      assert k * q == p;
      if k <= q {
        NoProduct(p, k, q);
      } else {
        NoProduct(p, q, k);
      }
    }
  }

  /** With p * m and k * m both periods and p a prime above k, m is one too: divide p by k and go on. */
  lemma {:induction false} Descend(m: nat, k: nat, p: nat)
    requires Factor(p) && 0 < k < p && Period(p * m) && Period(k * m)
    ensures Period(m)
    decreases k
  {
    hide Period;
    if k == 1 {
      assert k * m == m;
    } else {
      Prime(p, k);
      var r := p % k;
      Divided(p, k, m);
      PeriodTimes(r * m, k * m, p / k);
      Descend(m, r, p);
    }
  }

  lemma Divided(p: nat, k: nat, m: nat)
    requires k > 0
    ensures p * m == (p % k) * m + (p / k) * (k * m)
  {
    assert p == p % k + (p / k) * k;
    assert p * m == (p % k) * m + (p / k) * k * m;
  }

  lemma FactorDivides(n: nat, p: nat, m: nat)
    requires Factor(p) && p * m == 32767 && Period(n) && Period(32767) && !Period(m)
    ensures n % p == 0
  {
    hide Period;
    var k := n % p;
    PeriodTimes(0, n, m);
    Divided(n, p, m);
    PeriodTimes(k * m, 32767, n / p);
    NothingIsPeriod();
    if k > 0 {
      assert n * m == m * n;
      Descend(m, k, p);
    }
  }

  lemma NothingIsPeriod() ensures Period(0) {}

  lemma Sevenfold(a: nat)
    requires (7 * a) % 31 == 0
    ensures a % 31 == 0
  {
    var c := 7 * a / 31;
    assert a == 9 * (7 * a) - 31 * (2 * a) == 31 * (9 * c - 2 * a);
  }

  lemma Foldings(b: nat)
    requires (217 * b) % 151 == 0
    ensures b % 151 == 0
  {
    var c := 217 * b / 151;
    assert b == 135 * (217 * b) - 151 * (194 * b) == 151 * (135 * c - 194 * b);
  }

  lemma AllFactors(n: nat)
    requires n % 7 == 0 && n % 31 == 0 && n % 151 == 0
    ensures n % 32767 == 0
  {
    var a := n / 7;
    Sevenfold(a);
    var b := a / 31;
    assert n == 217 * b;
    Foldings(b);
    var c := b / 151;
    assert n == 32767 * c;
  }

  /** x to the n is one exactly for the multiples of 32767. */
  lemma OrderOfX(n: nat)
    ensures Power(n) == ONE <==> n % 32767 == 0
  {
    hide Power;
    SomePowers();
    if Power(n) == ONE {
      FactorDivides(n, 7, 4681);
      FactorDivides(n, 31, 1057);
      FactorDivides(n, 151, 217);
      AllFactors(n);
    } else if n % 32767 == 0 {
      NothingIsPeriod();
      PeriodTimes(0, 32767, n / 32767);
    }
  }

  /** Two powers of x agree exactly if their exponents do, modulo 32767. */
  lemma PowersAgreeIff(m: nat, n: nat)
    ensures Power(m) == Power(n) <==> m % 32767 == n % 32767
    decreases if m < n then 1 else 0
  {
    hide Shift, ShiftN;
    if m < n {
      PowersAgreeIff(n, m);
    } else {
      var k := m - n;
      ShiftNSum(ONE, k, n);
      OrderOfX(k);
      if Power(m) == Power(n) {
        ShiftNInjective(Power(k), ONE, n);
      }
    }
  }
}
