/**
 The check sequence one bit at a time, most significant bit of each octet first.
 Everything the check is chosen for is stated on this view: the octet loop computes
 it, and it is linear over GF(2).
 */
module CrcBits {
  import opened Bytes
  import opened Crc16

  const ZERO := Reg(0)
  const TOP := Reg(0x8000)
  const POLY := Reg(0x1021)

  // ---- bits of octets --------------------------------------------------------------

  function ShlN(x: Reg, n: nat): Reg { if n == 0 then x else Shl(ShlN(x, n - 1)) }

  /** The n leading bits of x. */
  function TopBits(x: Reg, n: nat): (bits: seq<bool>)
    ensures |bits| == n
  {
    if n == 0 then [] else TopBits(x, n - 1) + [Top(ShlN(x, n - 1))]
  }

  function BitsOf(b: byte): (bits: seq<bool>)
    ensures |bits| == 8
  {
    TopBits(Up(b), 8)
  }

  /** The bits of a message in the order the register takes them in. */
  function Bits(data: seq<byte>): (bits: seq<bool>)
    ensures |bits| == 8 * |data|
  {
    if data == [] then [] else Bits(data[..|data| - 1]) + BitsOf(data[|data| - 1])
  }

  lemma {:induction false} BitsConcat(a: seq<byte>, b: seq<byte>)
    ensures Bits(a + b) == Bits(a) + Bits(b)
  {
    if b == [] {
      assert a + b == a;
    } else {
      var k := |b| - 1;
      assert (a + b)[..|a| + k] == a + b[..k];
      BitsConcat(a, b[..k]);
    }
  }

  // ---- the bit-serial register -----------------------------------------------------

  function BitStep(crc: Reg, bit: bool): Reg { Shift(if bit then Xor(crc, TOP) else crc) }

  function CrcOfBits(bits: seq<bool>, init: Reg): Reg {
    if bits == [] then init else BitStep(CrcOfBits(bits[..|bits| - 1], init), bits[|bits| - 1])
  }

  lemma CrcOfBitsSnoc(bits: seq<bool>, bit: bool, init: Reg)
    ensures CrcOfBits(bits + [bit], init) == BitStep(CrcOfBits(bits, init), bit)
  {
    assert (bits + [bit])[..|bits|] == bits;
  }

  lemma {:induction false} CrcOfBitsConcat(a: seq<bool>, b: seq<bool>, init: Reg)
    ensures CrcOfBits(a + b, init) == CrcOfBits(b, CrcOfBits(a, init))
  {
    if b == [] {
      assert a + b == a;
    } else {
      var k := |b| - 1;
      assert (a + b)[..|a| + k] == a + b[..k];
      CrcOfBitsConcat(a, b[..k], init);
    }
  }

  // ---- the algebra of the register -------------------------------------------------

  // One fact of bit-vector arithmetic each; everything after them is algebra.

  lemma XorAssociates(a: Reg, b: Reg, c: Reg) ensures Xor(Xor(a, b), c) == Xor(a, Xor(b, c)) {}

  lemma XorCommutes(a: Reg, b: Reg) ensures Xor(a, b) == Xor(b, a) {}

  lemma XorSelf(a: Reg) ensures Xor(a, a) == ZERO {}

  lemma XorNothing(a: Reg) ensures Xor(a, ZERO) == a {}

  lemma XorZero(a: Reg, b: Reg)
    requires Xor(a, b) == ZERO
    ensures a == b
  {
  }

  /** (a + b) + (c + d) == (a + c) + (b + d) */
  lemma XorPairs(a: Reg, b: Reg, c: Reg, d: Reg)
    ensures Xor(Xor(a, b), Xor(c, d)) == Xor(Xor(a, c), Xor(b, d))
  {
  }

  lemma ShlLinear(a: Reg, b: Reg) ensures Shl(Xor(a, b)) == Xor(Shl(a), Shl(b)) {}

  lemma TopCancels(a: Reg, b: Reg)
    requires Top(a) && Top(b)
    ensures !Top(Xor(a, b))
  {
  }

  lemma TopSurvives(a: Reg, b: Reg)
    requires Top(a) && !Top(b)
    ensures Top(Xor(a, b))
  {
  }

  lemma TopAbsent(a: Reg, b: Reg)
    requires !Top(a) && !Top(b)
    ensures !Top(Xor(a, b))
  {
  }

  lemma ShiftHigh(a: Reg)
    requires Top(a)
    ensures Shift(a) == Xor(Shl(a), POLY)
  {
  }

  lemma ShiftLow(a: Reg)
    requires !Top(a)
    ensures Shift(a) == Shl(a)
  {
  }

  lemma ClearTop(y: Reg)
    requires Top(y)
    ensures !Top(Xor(y, TOP))
  {
  }

  lemma ShlDropsTop(y: Reg) ensures Shl(Xor(y, TOP)) == Shl(y) {}

  lemma ShlGone(y: Reg)
    requires !Top(y) && Shl(y) == ZERO
    ensures y == ZERO
  {
  }

  lemma ShlNotPoly(y: Reg) ensures Xor(Shl(y), POLY) != ZERO {}

  lemma UpGone(x: Reg) ensures Shl(Shl(Shl(Shl(Shl(Shl(Shl(Shl(Raised(x))))))))) == ZERO {}

  // ---- what the register does, as algebra ------------------------------------------

  lemma TopLinear(a: Reg, b: Reg)
    ensures Top(Xor(a, b)) <==> Top(a) != Top(b)
  {
    hide Xor, Top;
    XorCommutes(a, b);
    if Top(a) && Top(b) {
      TopCancels(a, b);
    } else if Top(a) {
      TopSurvives(a, b);
    } else if Top(b) {
      TopSurvives(b, a);
    } else {
      TopAbsent(a, b);
    }
  }

  function Feedback(top: bool): Reg { if top then POLY else ZERO }

  lemma ShiftIs(a: Reg)
    ensures Shift(a) == Xor(Shl(a), Feedback(Top(a)))
  {
    hide Shift, Xor, Shl, Top;
    if Top(a) {
      ShiftHigh(a);
    } else {
      ShiftLow(a);
      XorNothing(Shl(a));
    }
  }

  lemma FeedbackLinear(x: bool, y: bool)
    ensures Feedback(x != y) == Xor(Feedback(x), Feedback(y))
  {
    hide Xor;
    XorSelf(POLY);
    XorSelf(ZERO);
    XorNothing(POLY);
    XorCommutes(POLY, ZERO);
  }

  /** The inner loop is linear over GF(2). */
  lemma ShiftLinear(a: Reg, b: Reg)
    ensures Shift(Xor(a, b)) == Xor(Shift(a), Shift(b))
  {
    hide Shift, Xor, Shl, Top;
    ShiftIs(a);
    ShiftIs(b);
    ShiftIs(Xor(a, b));
    ShlLinear(a, b);
    TopLinear(a, b);
    FeedbackLinear(Top(a), Top(b));
    XorPairs(Shl(a), Feedback(Top(a)), Shl(b), Feedback(Top(b)));
  }

  lemma ShiftZero(a: Reg)
    requires Shift(a) == ZERO
    ensures a == ZERO
  {
    hide Shift, Xor, Shl, Top;
    if Top(a) {
      ShiftHigh(a);
      ShlNotPoly(a);
    } else {
      ShiftLow(a);
      ShlGone(a);
    }
  }

  /** It loses nothing either: the low coefficient of the polynomial is one. */
  lemma ShiftInjective(a: Reg, b: Reg)
    requires Shift(a) == Shift(b)
    ensures a == b
  {
    hide Shift, Xor;
    ShiftLinear(a, b);
    XorSelf(Shift(a));
    ShiftZero(Xor(a, b));
    XorZero(a, b);
  }

  lemma {:induction false} ShiftNInjective(a: Reg, b: Reg, n: nat)
    requires ShiftN(a, n) == ShiftN(b, n)
    ensures a == b
    decreases n
  {
    hide Shift;
    if n > 0 {
      ShiftInjective(ShiftN(a, n - 1), ShiftN(b, n - 1));
      ShiftNInjective(a, b, n - 1);
    }
  }

  lemma BitStepLinear(a: Reg, b: Reg, x: bool, y: bool)
    ensures BitStep(Xor(a, b), x != y) == Xor(BitStep(a, x), BitStep(b, y))
  {
    hide Shift, Xor;
    var p, q := if x then TOP else ZERO, if y then TOP else ZERO;
    XorPairs(a, b, p, q);
    XorNothing(a);
    XorNothing(b);
    XorNothing(Xor(a, b));
    XorSelf(TOP);
    XorSelf(ZERO);
    XorNothing(TOP);
    XorCommutes(ZERO, TOP);
    ShiftLinear(Xor(a, p), Xor(b, q));
  }

  /** Bits may enter the register all at once or one at a time. */
  lemma TakeIn(r: Reg, y: Reg)
    ensures Shift(Xor(r, y)) == Xor(BitStep(r, Top(y)), Shl(y))
  {
    hide Shift, Xor, Shl, Top;
    if Top(y) {
      var low := Xor(y, TOP);
      ClearTop(y);
      ShiftLow(low);
      ShlDropsTop(y);
      XorCommutes(TOP, low);
      XorAssociates(y, TOP, TOP);
      XorSelf(TOP);
      XorNothing(y);
      XorAssociates(r, TOP, low);
      ShiftLinear(Xor(r, TOP), low);
    } else {
      ShiftLow(y);
      ShiftLinear(r, y);
    }
  }

  lemma {:induction false} TakeInN(r: Reg, x: Reg, n: nat)
    ensures ShiftN(Xor(r, x), n) == Xor(CrcOfBits(TopBits(x, n), r), ShlN(x, n))
    decreases n
  {
    hide Shift, Xor, Shl, Top, BitStep;
    if n > 0 {
      TakeInN(r, x, n - 1);
      TakeIn(CrcOfBits(TopBits(x, n - 1), r), ShlN(x, n - 1));
      CrcOfBitsSnoc(TopBits(x, n - 1), Top(ShlN(x, n - 1)), r);
    } else {
      XorNothing(r);
    }
  }

  lemma ShlNFour(x: Reg, n: nat)
    ensures ShlN(x, n + 4) == Shl(Shl(Shl(Shl(ShlN(x, n)))))
  {
    hide Shl;
    assert ShlN(x, n + 2) == Shl(Shl(ShlN(x, n)));
  }

  lemma ShiftedOut(b: byte)
    ensures ShlN(Up(b), 8) == ZERO
  {
    hide Shl, Raised, Wide;
    ShlNFour(Up(b), 0);
    ShlNFour(Up(b), 4);
    UpGone(Wide(b));
  }

  lemma ByteStepIsSerial(crc: Reg, b: byte)
    ensures ByteStep(crc, b) == CrcOfBits(BitsOf(b), crc)
  {
    hide Shift, Xor, Shl, Up;
    TakeInN(crc, Up(b), 8);
    ShiftedOut(b);
    XorNothing(CrcOfBits(BitsOf(b), crc));
  }

  /** The octet-wise computation is the bit-serial one. */
  lemma {:induction false} CrcIsSerial(data: seq<byte>, init: Reg)
    ensures Crc(data, init) == CrcOfBits(Bits(data), init)
  {
    hide ByteStep, BitsOf, BitStep;
    if data != [] {
      var k := |data| - 1;
      CrcIsSerial(data[..k], init);
      ByteStepIsSerial(Crc(data[..k], init), data[k]);
      CrcOfBitsConcat(Bits(data[..k]), BitsOf(data[k]), init);
    }
  }

  // ---- shifting everything out -------------------------------------------------------

  /** The positions at which a and b differ. */
  function Difference(a: seq<bool>, b: seq<bool>): (d: seq<bool>)
    requires |a| == |b|
    ensures |d| == |a|
    ensures forall i :: 0 <= i < |d| ==> d[i] == (a[i] != b[i])
  {
    seq(|a|, i requires 0 <= i < |a| => a[i] != b[i])
  }

  lemma {:induction false} TopBitsLinear(a: Reg, b: Reg, n: nat)
    ensures ShlN(Xor(a, b), n) == Xor(ShlN(a, n), ShlN(b, n))
    ensures TopBits(Xor(a, b), n) == Difference(TopBits(a, n), TopBits(b, n))
    decreases n
  {
    hide Xor, Top, Shl;
    if n > 0 {
      TopBitsLinear(a, b, n - 1);
      ShlLinear(ShlN(a, n - 1), ShlN(b, n - 1));
      TopLinear(ShlN(a, n - 1), ShlN(b, n - 1));
    }
  }

  lemma {:induction false} ShlFirst(y: Reg, n: nat)
    ensures ShlN(y, n + 1) == ShlN(Shl(y), n)
    ensures TopBits(y, n + 1) == [Top(y)] + TopBits(Shl(y), n)
    decreases n
  {
    hide Top, Shl;
    if n > 0 {
      ShlFirst(y, n - 1);
    }
  }

  lemma SixteenGone(x: bv16)
    ensures Shl(Shl(Shl(Shl(Shl(Shl(Shl(Shl(Shl(Shl(Shl(Shl(Shl(Shl(Shl(Shl(Reg(x))))))))))))))))) == ZERO
  {
  }

  lemma AllShiftedOut(y: Reg)
    ensures ShlN(y, 16) == ZERO
  {
    hide Shl;
    ShlNFour(y, 0);
    ShlNFour(y, 4);
    ShlNFour(y, 8);
    ShlNFour(y, 12);
    SixteenGone(y.v);
  }

  /** A register is determined by its bits. */
  lemma RegDetermined(a: Reg, b: Reg)
    requires TopBits(a, 16) == TopBits(b, 16)
    ensures a == b
  {
    hide Shift, Xor, TopBits;
    TakeInN(ZERO, a, 16);
    TakeInN(ZERO, b, 16);
    AllShiftedOut(a);
    AllShiftedOut(b);
    ShiftNInjective(Xor(ZERO, a), Xor(ZERO, b), 16);
    XorCommutes(ZERO, a);
    XorCommutes(ZERO, b);
    XorNothing(a);
    XorNothing(b);
  }

  lemma ZeroHasNoTop() ensures !Top(ZERO) && Shl(ZERO) == ZERO {}
}
