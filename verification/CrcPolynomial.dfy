/**
 The check as polynomial division over GF(2) by x^16 + x^12 + x^5 + 1. Division is defined
 here on coefficients alone, without reference to any register or loop.
 */
module CrcPolynomial {
  import opened Bytes
  import opened Crc16
  import opened CrcBits

  // ---- polynomials -----------------------------------------------------------------

  /** The coefficient of x^k of the polynomial whose coefficients are listed lowest first. */
  predicate Coef(p: seq<bool>, k: int) { 0 <= k < |p| && p[k] }

  /** The coefficient of x^k of q * (x^16 + x^12 + x^5 + 1). */
  predicate TimesG(q: seq<bool>, k: int) {
    ((Coef(q, k - 16) != Coef(q, k - 12)) != Coef(q, k - 5)) != Coef(q, k)
  }

  /** A message as a polynomial: its first bit is the coefficient of the highest power. */
  predicate MsgCoef(bits: seq<bool>, k: int) { 0 <= k < |bits| && bits[|bits| - 1 - k] }

  /** A register as a polynomial of degree below 16. */
  predicate RegCoef(r: Reg, k: int) { MsgCoef(TopBits(r, 16), k) }

  /** The coefficient of x^k of init * x^n + message * x^16, where n is the number of message bits. */
  predicate Dividend(init: Reg, bits: seq<bool>, k: int) {
    RegCoef(init, k - |bits|) != MsgCoef(bits, k - 16)
  }

  /** init * x^n + message * x^16 == q * (x^16 + x^12 + x^5 + 1) + r, coefficient by coefficient. */
  ghost predicate Division(init: Reg, bits: seq<bool>, q: seq<bool>, r: Reg) {
    forall k: int :: Dividend(init, bits, k) == (TimesG(q, k) != RegCoef(r, k))
  }

  // ---- one bit of the register, one step of long division ---------------------------

  lemma {:induction false} TopBitsAt(x: Reg, n: nat, i: nat)
    requires i < n
    ensures TopBits(x, n)[i] == Top(ShlN(x, i))
    decreases n
  {
    if i < n - 1 {
      TopBitsAt(x, n - 1, i);
    }
  }

  lemma ShlCoef(y: Reg, k: int)
    ensures RegCoef(Shl(y), k) == (0 < k < 16 && RegCoef(y, k - 1))
  {
    hide Shl, Top;
    if 0 <= k < 16 {
      TopBitsAt(Shl(y), 16, 15 - k);
      ShlFirst(y, 15 - k);
      if k == 0 {
        AllShiftedOut(y);
        ZeroHasNoTop();
      } else {
        TopBitsAt(y, 16, 16 - k);
      }
    }
  }

  lemma XorCoef(a: Reg, b: Reg, k: int)
    ensures RegCoef(Xor(a, b), k) == (RegCoef(a, k) != RegCoef(b, k))
  {
    hide Xor;
    TopBitsLinear(a, b, 16);
  }

  lemma PolyShifts()
    ensures ShlN(POLY, 2) == Reg(0x4084) && ShlN(POLY, 4) == Reg(0x0210)
    ensures ShlN(POLY, 6) == Reg(0x0840) && ShlN(POLY, 8) == Reg(0x2100)
    ensures ShlN(POLY, 10) == Reg(0x8400) && ShlN(POLY, 12) == Reg(0x1000)
    ensures ShlN(POLY, 14) == Reg(0x4000)
  {
  }

  /** 0x1021 is x^12 + x^5 + 1. */
  lemma PolyCoef(k: int)
    ensures RegCoef(POLY, k) == (k == 12 || k == 5 || k == 0)
  {
    if 0 <= k < 16 {
      TopBitsAt(POLY, 16, 15 - k);
      PolyShifts();
    }
  }

  lemma ZeroCoef(k: int)
    ensures !RegCoef(ZERO, k)
  {
    hide Xor;
    XorSelf(ZERO);
    XorCoef(ZERO, ZERO, k);
  }

  /** What one register step does to the coefficients. */
  lemma StepCoef(r: Reg, bit: bool, k: int)
    ensures RegCoef(BitStep(r, bit), k) ==
            ((0 < k < 16 && RegCoef(r, k - 1)) != (Top(r) != bit && (k == 12 || k == 5 || k == 0)))
  {
    hide Xor, Shl, Shift, Top, RegCoef;
    var e := if bit then Xor(r, TOP) else r;
    TopLinear(r, TOP);
    TopOfTop();
    ShlDropsTop(r);
    ShiftIs(e);
    XorCoef(Shl(e), Feedback(Top(e)), k);
    ShlCoef(r, k);
    PolyCoef(k);
    ZeroCoef(k);
  }

  lemma TopOfTop() ensures Top(TOP) {}

  lemma HighCoef(r: Reg)
    ensures RegCoef(r, 15) == Top(r)
  {
    hide Top;
    TopBitsAt(r, 16, 0);
  }

  /** Appending a message bit multiplies the dividend by x and adds the bit at x^16. */
  lemma DividendStep(init: Reg, bits: seq<bool>, bit: bool, k: int)
    ensures Dividend(init, bits + [bit], k) == (Dividend(init, bits, k - 1) != (k == 16 && bit))
  {
    hide RegCoef;
  }

  lemma QuotientStep(q: seq<bool>, c: bool, k: int)
    ensures TimesG([c] + q, k) == (TimesG(q, k - 1) != (c && (k == 16 || k == 12 || k == 5 || k == 0)))
  {
    CoefStep(q, c, k);
    CoefStep(q, c, k - 5);
    CoefStep(q, c, k - 12);
    CoefStep(q, c, k - 16);
  }

  lemma CoefStep(q: seq<bool>, c: bool, k: int)
    ensures Coef([c] + q, k) == if k == 0 then c else Coef(q, k - 1)
  {
  }

  lemma DivisionStep(init: Reg, bits: seq<bool>, bit: bool, q: seq<bool>, r: Reg)
    requires Division(init, bits, q, r)
    ensures Division(init, bits + [bit], [Top(r) != bit] + q, BitStep(r, bit))
  {
    hide Dividend, TimesG, RegCoef, BitStep, Top;
    var c := Top(r) != bit;
    forall k: int ensures Dividend(init, bits + [bit], k) == (TimesG([c] + q, k) != RegCoef(BitStep(r, bit), k)) {
      DividendStep(init, bits, bit, k);
      QuotientStep(q, c, k);
      StepCoef(r, bit, k);
      assert Dividend(init, bits, k - 1) == (TimesG(q, k - 1) != RegCoef(r, k - 1));
      HighCoef(r);
      if !(0 <= k - 1 < 16) {
        NoCoef(r, k - 1);
      }
    }
  }

  lemma NoCoef(r: Reg, k: int)
    requires !(0 <= k < 16)
    ensures !RegCoef(r, k)
  {
  }

  // ---- the check is the remainder, and the remainder is unique ------------------------

  lemma DivisionStart(init: Reg)
    ensures Division(init, [], [], init)
  {
    hide RegCoef;
    forall k: int ensures Dividend(init, [], k) == (TimesG([], k) != RegCoef(init, k)) {
    }
  }

  lemma {:induction false} SerialDivides(init: Reg, bits: seq<bool>) returns (q: seq<bool>)
    ensures Division(init, bits, q, CrcOfBits(bits, init))
  {
    hide Division, BitStep, Top;
    if bits == [] {
      DivisionStart(init);
      q := [];
    } else {
      var k := |bits| - 1;
      var r := CrcOfBits(bits[..k], init);
      q := SerialDivides(init, bits[..k]);
      DivisionStep(init, bits[..k], bits[k], q, r);
      q := [Top(r) != bits[k]] + q;
      assert bits == bits[..k] + [bits[k]];
    }
  }

  /** Two quotients agree from the top coefficient down: a remainder has no power above 15. */
  lemma {:induction false} QuotientsAgree(init: Reg, bits: seq<bool>, q: seq<bool>, r: Reg,
                                          q': seq<bool>, r': Reg, j: nat)
    requires Division(init, bits, q, r) && Division(init, bits, q', r')
    ensures Coef(q, j) == Coef(q', j)
    decreases if j < |q| + |q'| then |q| + |q'| - j else 0
  {
    hide Dividend, RegCoef;
    if j < |q| + |q'| {
      QuotientsAgree(init, bits, q, r, q', r', j + 4);
      QuotientsAgree(init, bits, q, r, q', r', j + 11);
      QuotientsAgree(init, bits, q, r, q', r', j + 16);
      NoCoef(r, j + 16);
      NoCoef(r', j + 16);
      assert Dividend(init, bits, j + 16) == (TimesG(q, j + 16) != RegCoef(r, j + 16));
      assert Dividend(init, bits, j + 16) == (TimesG(q', j + 16) != RegCoef(r', j + 16));
    }
  }

  lemma SameCoefs(a: Reg, b: Reg)
    requires forall k: int :: RegCoef(a, k) == RegCoef(b, k)
    ensures a == b
  {
    hide Top;
    forall i | 0 <= i < 16 ensures TopBits(a, 16)[i] == TopBits(b, 16)[i] {
      assert RegCoef(a, 15 - i) == RegCoef(b, 15 - i);
    }
    RegDetermined(a, b);
  }

  lemma RemainderUnique(init: Reg, bits: seq<bool>, q: seq<bool>, r: Reg, q': seq<bool>, r': Reg)
    requires Division(init, bits, q, r) && Division(init, bits, q', r')
    ensures r == r'
  {
    hide Dividend, RegCoef;
    forall k: int ensures RegCoef(r, k) == RegCoef(r', k) {
      forall j: nat ensures Coef(q, j) == Coef(q', j) {
        QuotientsAgree(init, bits, q, r, q', r', j);
      }
      assert TimesG(q, k) == TimesG(q', k);
      assert Dividend(init, bits, k) == (TimesG(q, k) != RegCoef(r, k));
      assert Dividend(init, bits, k) == (TimesG(q', k) != RegCoef(r', k));
    }
    SameCoefs(r, r');
  }

  /**
   The octet loop computes the remainder of init * x^(8n) + data * x^16 modulo
   x^16 + x^12 + x^5 + 1, and that remainder is the only one.
   */
  lemma CrcIsRemainder(data: seq<byte>, init: Reg, r: Reg)
    ensures (exists q :: Division(init, Bits(data), q, r)) <==> r == Crc(data, init)
  {
    hide Division, Crc, Bits;
    CrcIsSerial(data, init);
    var q := SerialDivides(init, Bits(data));
    forall q' | Division(init, Bits(data), q', r) ensures r == Crc(data, init) {
      RemainderUnique(init, Bits(data), q, Crc(data, init), q', r);
    }
  }
}
