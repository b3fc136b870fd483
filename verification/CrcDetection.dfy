/**
 Which transmission errors the check sequence catches. An error is a pattern of
 flipped bits; by linearity only the pattern matters, not the message.
 */
module CrcDetection {
  import opened Bytes
  import opened Crc16
  import opened CrcBits

  // ---- error patterns --------------------------------------------------------------

  lemma {:induction false} CrcLinear(a: seq<bool>, b: seq<bool>, i: Reg, j: Reg)
    requires |a| == |b|
    ensures CrcOfBits(Difference(a, b), Xor(i, j)) == Xor(CrcOfBits(a, i), CrcOfBits(b, j))
  {
    hide BitStep, Xor;
    if a != [] {
      var k := |a| - 1;
      CrcLinear(a[..k], b[..k], i, j);
      assert Difference(a, b)[..k] == Difference(a[..k], b[..k]);
      BitStepLinear(CrcOfBits(a[..k], i), CrcOfBits(b[..k], j), a[k], b[k]);
    }
  }

  /** The checks of two messages differ by the check of their difference from a zero register. */
  lemma CrcOfDifference(a: seq<byte>, b: seq<byte>, init: Reg)
    requires |a| == |b|
    ensures Xor(Crc(a, init), Crc(b, init)) == CrcOfBits(Difference(Bits(a), Bits(b)), ZERO)
  {
    hide Crc, BitStep, Xor;
    CrcIsSerial(a, init);
    CrcIsSerial(b, init);
    XorSelf(init);
    CrcLinear(Bits(a), Bits(b), init, init);
  }

  /** The payload and the two check octets of the received content. */
  function Data(u: seq<byte>): seq<byte>
    requires |u| >= 2
  {
    u[..|u| - 2]
  }

  function Check(u: seq<byte>): Reg
    requires |u| >= 2
  {
    CrcWord(u[|u| - 2], u[|u| - 1])
  }

  /**
   Whether an error is caught depends on the error alone: accepted content u turned into v
   is accepted again exactly if the pattern of flipped bits is itself consistent under a
   check that starts from zero.
   */
  lemma ErrorUndetectedIff(u: seq<byte>, v: seq<byte>)
    requires |u| == |v| && Accepts(u)
    ensures Accepts(v) <==> CrcOfBits(Difference(Bits(Data(u)), Bits(Data(v))), ZERO) == Xor(Check(u), Check(v))
  {
    hide Crc, BitStep, Xor, CrcWord;
    var a, b := Crc(Data(u), INIT), Crc(Data(v), INIT);
    CrcOfDifference(Data(u), Data(v), INIT);
    if Xor(a, b) == Xor(a, Check(v)) {
      XorAssociates(a, a, b);
      XorAssociates(a, a, Check(v));
      XorSelf(a);
      XorCommutes(ZERO, b);
      XorCommutes(ZERO, Check(v));
      XorNothing(b);
      XorNothing(Check(v));
    }
  }

  // ---- bursts ----------------------------------------------------------------------

  /** Some bit of d selected by m is set. */
  predicate Low(d: Reg, m: Reg) { d.v & m.v != 0 }

  lemma LowFeedback(d: Reg, m: Reg)
    requires Top(d)
    ensures Low(Shift(d), PushBit(m, true))
  {
  }

  lemma LowSurvives(d: Reg, m: Reg)
    requires !Top(d) && Low(d, m)
    ensures Low(Shift(d), PushBit(m, true))
  {
  }

  lemma LowUntouched(d: Reg, m: Reg)
    requires !Top(m) && Low(d, m)
    ensures Low(Xor(d, TOP), m)
  {
  }

  /** Some bit among the lowest n of the register is set. */
  predicate Disturbed(d: Reg, n: nat) { Low(d, Mask(n)) }

  /** Whatever bit comes in, a disturbance among the low bits moves up by one and stays. */
  lemma DisturbanceMoves(d: Reg, bit: bool, n: nat)
    requires n <= 15 && Disturbed(d, n)
    ensures Disturbed(BitStep(d, bit), n + 1)
  {
    hide Shift, Xor, Top, Low, PushBit;
    MaskIsLow(n);
    LowUntouched(d, Mask(n));
    var e := if bit then Xor(d, TOP) else d;
    if Top(e) {
      LowFeedback(e, Mask(n));
    } else {
      LowSurvives(e, Mask(n));
    }
  }

  lemma FirstDisturbance() ensures Disturbed(BitStep(ZERO, true), 1) && BitStep(ZERO, false) == ZERO {}

  lemma DisturbedIsNonzero(d: Reg, n: nat)
    requires Disturbed(d, n)
    ensures d != ZERO
  {
  }

  lemma NothingIn(d: Reg)
    ensures BitStep(d, false) == ZERO ==> d == ZERO
  {
    hide Shift;
    if BitStep(d, false) == ZERO {
      ShiftZero(d);
    }
  }

  /** d has its first set bit at f and none from f + 16 on. */
  predicate Burst(d: seq<bool>, f: nat) {
    && f < |d| && d[f]
    && (forall i :: 0 <= i < f ==> !d[i])
    && (forall i :: f + 16 <= i < |d| ==> !d[i])
  }

  lemma {:induction false} CrcOfZeros(d: seq<bool>)
    requires forall i :: 0 <= i < |d| ==> !d[i]
    ensures CrcOfBits(d, ZERO) == ZERO
  {
    hide BitStep;
    if d != [] {
      CrcOfZeros(d[..|d| - 1]);
      FirstDisturbance();
    }
  }

  /** Inside the window the disturbance is still low; after it, it can no longer vanish. */
  lemma {:induction false} BurstLeavesTrace(d: seq<bool>, f: nat)
    requires Burst(d, f)
    ensures |d| <= f + 16 ==> Disturbed(CrcOfBits(d, ZERO), |d| - f)
    ensures CrcOfBits(d, ZERO) != ZERO
    decreases |d|
  {
    hide BitStep, Disturbed;
    var k := |d| - 1;
    var r := CrcOfBits(d[..k], ZERO);
    if k == f {
      CrcOfZeros(d[..k]);
      FirstDisturbance();
      DisturbedIsNonzero(CrcOfBits(d, ZERO), 1);
    } else {
      BurstLeavesTrace(d[..k], f);
      if |d| <= f + 16 {
        DisturbanceMoves(r, d[k], k - f);
        DisturbedIsNonzero(CrcOfBits(d, ZERO), |d| - f);
      } else {
        NothingIn(r);
      }
    }
  }

  /** a and b have the same bits outside the n from w on. */
  predicate AgreeOutside(a: seq<bool>, b: seq<bool>, w: nat, n: nat) {
    |a| == |b| && forall i :: 0 <= i < |a| && !(w <= i < w + n) ==> a[i] == b[i]
  }

  lemma FindFirst(d: seq<bool>) returns (f: nat)
    requires exists i :: 0 <= i < |d| && d[i]
    ensures f < |d| && d[f] && forall i :: 0 <= i < f ==> !d[i]
  {
    f := 0;
    while !d[f]
      invariant f < |d|
      invariant forall i :: 0 <= i < f ==> !d[i]
      decreases |d| - f
    {
      f := f + 1;
    }
  }

  lemma {:induction false} BitsInjective(a: seq<byte>, b: seq<byte>)
    requires |a| == |b| && Bits(a) == Bits(b)
    ensures a == b
  {
    hide ByteStep, BitsOf;
    if a != [] {
      var k := |a| - 1;
      assert Bits(a)[..8 * k] == Bits(a[..k]) && Bits(b)[..8 * k] == Bits(b[..k]);
      assert Bits(a)[8 * k..] == BitsOf(a[k]) && Bits(b)[8 * k..] == BitsOf(b[k]);
      BitsInjective(a[..k], b[..k]);
      BitsOfInjective(a[k], b[k]);
    }
  }

  lemma RaisedInjective(x: Reg, y: Reg)
    requires Fits(x, BYTE) && Fits(y, BYTE) && Raised(x) == Raised(y)
    ensures x == y
  {
  }

  lemma UpInjective(a: byte, b: byte)
    requires Up(a) == Up(b)
    ensures a == b
  {
    hide Fits, Raised, Wide, Octet;
    WideFits(a);
    WideFits(b);
    RaisedInjective(Wide(a), Wide(b));
    OctetOfWide(a);
    OctetOfWide(b);
  }

  lemma BitsOfInjective(a: byte, b: byte)
    requires BitsOf(a) == BitsOf(b)
    ensures a == b
  {
    hide Shift, Xor, Up, BitsOf, Wide;
    ByteStepIsSerial(ZERO, a);
    ByteStepIsSerial(ZERO, b);
    ShiftNInjective(Xor(ZERO, Up(a)), Xor(ZERO, Up(b)), 8);
    XorCommutes(ZERO, Up(a));
    XorCommutes(ZERO, Up(b));
    XorNothing(Up(a));
    XorNothing(Up(b));
    UpInjective(a, b);
  }

  /**
   Two different messages of one length whose bits differ only inside a window of 16
   consecutive bits have different checks, wherever the window lies.
   */
  lemma BurstDetected(a: seq<byte>, b: seq<byte>, w: nat, init: Reg)
    requires |a| == |b| && a != b && AgreeOutside(Bits(a), Bits(b), w, 16)
    ensures Crc(a, init) != Crc(b, init)
  {
    hide Crc, BitStep, Xor;
    var d := Difference(Bits(a), Bits(b));
    if forall i :: 0 <= i < |d| ==> !d[i] {
      assert Bits(a) == Bits(b);
      BitsInjective(a, b);
    }
    var f := FindFirst(d);
    assert w <= f;
    BurstLeavesTrace(d, f);
    CrcOfDifference(a, b, init);
    XorSelf(Crc(a, init));
  }

  lemma BitsSplit(u: seq<byte>)
    requires |u| >= 2
    ensures Bits(u) == Bits(Data(u)) + Bits(u[|u| - 2..])
  {
    hide BitsOf;
    assert u == Data(u) + u[|u| - 2..];
    BitsConcat(Data(u), u[|u| - 2..]);
  }

  lemma AgreeOnData(u: seq<byte>, v: seq<byte>, w: nat, n: nat)
    requires |u| == |v| >= 2 && AgreeOutside(Bits(u), Bits(v), w, n)
    ensures AgreeOutside(Bits(Data(u)), Bits(Data(v)), w, n)
  {
    hide Bits;
    BitsSplit(u);
    BitsSplit(v);
    forall i | 0 <= i < |Bits(Data(u))| && !(w <= i < w + n) ensures Bits(Data(u))[i] == Bits(Data(v))[i] {
      assert Bits(u)[i] == Bits(v)[i];
    }
  }

  /**
   A burst of at most 16 bits that touches only the payload, or only the check octets, makes
   accepted content unacceptable.
   */
  lemma BurstRejected(u: seq<byte>, v: seq<byte>, w: nat)
    requires |u| == |v| && u != v && Accepts(u)
    requires AgreeOutside(Bits(u), Bits(v), w, 16)
    requires Data(u) == Data(v) || u[|u| - 2..] == v[|v| - 2..]
    ensures !Accepts(v)
  {
    hide Crc, Bits;
    if Data(u) == Data(v) {
      AcceptsIff(u);
      AcceptsIff(v);
    } else {
      AgreeOnData(u, v, w, 16);
      BurstDetected(Data(u), Data(v), w, INIT);
      assert u[|u| - 2] == u[|u| - 2..][0] && u[|u| - 1] == u[|u| - 2..][1];
      assert v[|v| - 2] == v[|v| - 2..][0] && v[|v| - 1] == v[|v| - 2..][1];
    }
  }

  // ---- parity ----------------------------------------------------------------------

  function Ones(bits: seq<bool>): nat {
    if bits == [] then 0 else Ones(bits[..|bits| - 1]) + (if bits[|bits| - 1] then 1 else 0)
  }

  /** Whether the number of one bits is odd. */
  predicate Odd(bits: seq<bool>) { Ones(bits) % 2 == 1 }

  lemma OddSnoc(bits: seq<bool>, bit: bool)
    ensures Odd(bits + [bit]) <==> Odd(bits) != bit
  {
    assert (bits + [bit])[..|bits|] == bits;
  }

  lemma NoneOdd() ensures !Odd([]) {}

  lemma {:induction false} OddConcat(a: seq<bool>, b: seq<bool>)
    ensures Odd(a + b) <==> Odd(a) != Odd(b)
  {
    hide Odd;
    if b == [] {
      assert a + b == a;
      NoneOdd();
    } else {
      var k := |b| - 1;
      OddConcat(a, b[..k]);
      OddSnoc(a + b[..k], b[k]);
      OddSnoc(b[..k], b[k]);
      assert a + b == (a + b[..k]) + [b[k]];
      assert b == b[..k] + [b[k]];
    }
  }

  lemma {:induction false} OddDifference(a: seq<bool>, b: seq<bool>)
    requires |a| == |b|
    ensures Odd(Difference(a, b)) <==> Odd(a) != Odd(b)
  {
    hide Odd;
    if a == [] {
      NoneOdd();
    } else {
      var k := |a| - 1;
      OddDifference(a[..k], b[..k]);
      OddSnoc(a[..k], a[k]);
      OddSnoc(b[..k], b[k]);
      OddSnoc(Difference(a[..k], b[..k]), a[k] != b[k]);
      assert a == a[..k] + [a[k]] && b == b[..k] + [b[k]];
      assert Difference(a, b) == Difference(a[..k], b[..k]) + [a[k] != b[k]];
    }
  }

  // The parity of the register.

  /** Whether the register holds an odd number of one bits. */
  predicate OddReg(r: Reg) { Odd(TopBits(r, 16)) }

  lemma OddXor(a: Reg, b: Reg)
    ensures OddReg(Xor(a, b)) <==> OddReg(a) != OddReg(b)
  {
    hide Xor, Odd;
    TopBitsLinear(a, b, 16);
    OddDifference(TopBits(a, 16), TopBits(b, 16));
  }

  lemma OddShl(y: Reg)
    ensures OddReg(Shl(y)) <==> OddReg(y) != Top(y)
  {
    hide Shl, Odd, Top;
    ShlFirst(y, 16);
    OddConcat([Top(y)], TopBits(Shl(y), 16));
    NoneOdd();
    OddSnoc([], Top(y));
    AllShiftedOut(y);
    ZeroHasNoTop();
    OddSnoc(TopBits(y, 16), false);
    assert TopBits(y, 17) == TopBits(y, 16) + [false];
    assert [] + [Top(y)] == [Top(y)];
  }

  lemma OddZero()
    ensures !OddReg(ZERO)
  {
    hide Shl, Odd, Top, Xor;
    XorSelf(ZERO);
    OddXor(ZERO, ZERO);
  }

  lemma OddNext(x: bv16, y: bv16)
    requires x << 1 == y
    ensures OddReg(Reg(x)) <==> OddReg(Reg(y)) != Top(Reg(x))
  {
    hide OddReg;
    OddShl(Reg(x));
  }

  /** The polynomial below its leading term has an odd number of terms, so an even number in all. */
  lemma OddPoly()
    ensures OddReg(POLY)
  {
    hide OddReg;
    OddZero();
    OddNext(0x1021, 0x2042);
    OddNext(0x2042, 0x4084);
    OddNext(0x4084, 0x8108);
    OddNext(0x8108, 0x210);
    OddNext(0x210, 0x420);
    OddNext(0x420, 0x840);
    OddNext(0x840, 0x1080);
    OddNext(0x1080, 0x2100);
    OddNext(0x2100, 0x4200);
    OddNext(0x4200, 0x8400);
    OddNext(0x8400, 0x800);
    OddNext(0x800, 0x1000);
    OddNext(0x1000, 0x2000);
    OddNext(0x2000, 0x4000);
    OddNext(0x4000, 0x8000);
    OddNext(0x8000, 0x0);
  }

  lemma OddTop()
    ensures OddReg(TOP)
  {
    hide OddReg;
    OddZero();
    OddNext(0x8000, 0);
  }

  lemma EvenInit()
    ensures !OddReg(INIT)
  {
    hide OddReg;
    OddZero();
    OddNext(0xffff, 0xfffe);
    OddNext(0xfffe, 0xfffc);
    OddNext(0xfffc, 0xfff8);
    OddNext(0xfff8, 0xfff0);
    OddNext(0xfff0, 0xffe0);
    OddNext(0xffe0, 0xffc0);
    OddNext(0xffc0, 0xff80);
    OddNext(0xff80, 0xff00);
    OddNext(0xff00, 0xfe00);
    OddNext(0xfe00, 0xfc00);
    OddNext(0xfc00, 0xf800);
    OddNext(0xf800, 0xf000);
    OddNext(0xf000, 0xe000);
    OddNext(0xe000, 0xc000);
    OddNext(0xc000, 0x8000);
    OddNext(0x8000, 0x0);
  }

  /** Each step keeps the parity of the register together with the bits taken in. */
  lemma BitStepKeepsParity(r: Reg, bit: bool)
    ensures OddReg(BitStep(r, bit)) <==> OddReg(r) != bit
  {
    hide Xor, Shl, Top, OddReg, Shift;
    OddTop();
    OddPoly();
    OddZero();
    OddXor(r, TOP);
    var e := if bit then Xor(r, TOP) else r;
    ShiftIs(e);
    OddXor(Shl(e), Feedback(Top(e)));
    OddShl(e);
  }

  lemma {:induction false} CrcKeepsParity(bits: seq<bool>, init: Reg)
    ensures OddReg(CrcOfBits(bits, init)) <==> OddReg(init) != Odd(bits)
  {
    hide OddReg, BitStep, Odd;
    if bits == [] {
      NoneOdd();
    } else {
      var k := |bits| - 1;
      CrcKeepsParity(bits[..k], init);
      BitStepKeepsParity(CrcOfBits(bits[..k], init), bits[k]);
      OddSnoc(bits[..k], bits[k]);
      assert bits == bits[..k] + [bits[k]];
    }
  }

  lemma {:induction false} OddTopBits(x: Reg, n: nat)
    ensures Odd(TopBits(x, n)) <==> OddReg(x) != OddReg(ShlN(x, n))
    decreases n
  {
    hide OddReg, Odd, Top, Shl;
    if n == 0 {
      NoneOdd();
    } else {
      OddTopBits(x, n - 1);
      OddSnoc(TopBits(x, n - 1), Top(ShlN(x, n - 1)));
      OddShl(ShlN(x, n - 1));
    }
  }

  lemma OddOctet(b: byte)
    ensures Odd(BitsOf(b)) <==> OddReg(Up(b))
  {
    hide OddReg, Odd, Up;
    OddTopBits(Up(b), 8);
    ShiftedOut(b);
    OddZero();
  }

  lemma ShlBelow(x: Reg, m: Reg)
    requires Fits(x, m) && !Top(m)
    ensures !Top(x) && Fits(Shl(x), Shl(m))
  {
  }

  lemma OddBelow(x: Reg, m: Reg)
    requires Fits(x, m) && !Top(m)
    ensures Fits(Shl(x), Shl(m)) && (OddReg(Shl(x)) <==> OddReg(x))
  {
    hide OddReg, Shl, Fits, Top;
    ShlBelow(x, m);
    OddShl(x);
  }

  lemma {:induction false} OddShlN(x: Reg, m: Reg, n: nat)
    requires Fits(x, m) && forall i :: 0 <= i < n ==> !Top(ShlN(m, i))
    ensures Fits(ShlN(x, n), ShlN(m, n)) && (OddReg(ShlN(x, n)) <==> OddReg(x))
    decreases n
  {
    hide OddReg, Shl, Fits, Top;
    if n > 0 {
      OddShlN(x, m, n - 1);
      OddBelow(ShlN(x, n - 1), ShlN(m, n - 1));
    }
  }

  lemma ByteClear()
    ensures forall i :: 0 <= i < 8 ==> !Top(ShlN(BYTE, i))
  {
    assert ShlN(BYTE, 2) == Reg(0x3FC);
    assert ShlN(BYTE, 4) == Reg(0xFF0);
    assert ShlN(BYTE, 6) == Reg(0x3FC0);
  }

  lemma EightTimes(x: Reg) ensures Shl(Shl(Shl(Shl(Shl(Shl(Shl(Shl(x)))))))) == Raised(x) {}

  /** A check octet counts the same in either half of the register. */
  lemma OddWide(b: byte)
    ensures OddReg(Wide(b)) <==> OddReg(Up(b))
  {
    hide OddReg, Wide, Shl, Raised, Fits, Top;
    WideFits(b);
    ByteClear();
    OddShlN(Wide(b), BYTE, 8);
    ShlNFour(Wide(b), 0);
    ShlNFour(Wide(b), 4);
    EightTimes(Wide(b));
  }

  lemma JoinIsXor(lo: Reg, hi: Reg)
    requires Fits(lo, BYTE)
    ensures Joined(lo, hi) == Xor(Raised(hi), lo)
  {
  }

  lemma CrcWordIsXor(lo: byte, hi: byte)
    ensures CrcWord(lo, hi) == Xor(Up(hi), Wide(lo))
  {
    hide Wide, Joined, Xor, Raised, Fits;
    WideFits(lo);
    JoinIsXor(Wide(lo), Wide(hi));
  }

  lemma OddCheck(lo: byte, hi: byte)
    ensures Odd(Bits([lo, hi])) <==> OddReg(CrcWord(lo, hi))
  {
    hide OddReg, Odd, Xor, CrcWord, BitsOf, Wide;
    CrcWordIsXor(lo, hi);
    OddXor(Up(hi), Wide(lo));
    OddWide(lo);
    OddOctet(lo);
    OddOctet(hi);
    OddConcat(BitsOf(lo), BitsOf(hi));
    assert [lo, hi][..1] == [lo];
    assert Bits([lo]) == BitsOf(lo);
    assert Bits([lo, hi]) == BitsOf(lo) + BitsOf(hi);
  }

  /** Accepted content, check octets included, has an even number of one bits. */
  lemma AcceptedIsEven(u: seq<byte>)
    requires Accepts(u)
    ensures Ones(Bits(u)) % 2 == 0
  {
    hide OddReg, Ones, Bits, Crc, CrcWord;
    var lo, hi := u[|u| - 2], u[|u| - 1];
    BitsSplit(u);
    assert u[|u| - 2..] == [lo, hi];
    OddConcat(Bits(Data(u)), Bits([lo, hi]));
    OddCheck(lo, hi);
    CrcIsSerial(Data(u), INIT);
    CrcKeepsParity(Bits(Data(u)), INIT);
    EvenInit();
  }

  /** Any odd number of flipped bits, anywhere in accepted content, is caught. */
  lemma OddErrorRejected(u: seq<byte>, v: seq<byte>)
    requires |u| == |v| && Accepts(u)
    requires Ones(Difference(Bits(u), Bits(v))) % 2 == 1
    ensures !Accepts(v)
  {
    hide Ones, Bits;
    OddDifference(Bits(u), Bits(v));
    AcceptedIsEven(u);
    if Accepts(v) {
      AcceptedIsEven(v);
    }
  }
}
