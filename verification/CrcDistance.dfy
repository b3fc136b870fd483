/**
 Few flipped bits, wherever they are. Each bit of what is checked stands for a power of x, the bits
 of the check octets included, and flipped bits go unnoticed exactly if their powers add up to zero.
 */
module CrcDistance {
  import opened Bytes
  import opened Crc16
  import opened CrcBits
  import opened CrcBursts
  import opened CrcDetection
  import opened CrcOrder

  // ---- the bits of one octet -----------------------------------------------------------

  function OctetDifference(x: byte, y: byte): (d: seq<bool>)
    ensures |d| == 8
  {
    Difference(BitsOf(x), BitsOf(y))
  }

  lemma PushFlipped(x: Reg, e: Reg, bit: bool) ensures PushBit(Xor(x, e), bit) == Xor(PushBit(x, bit), Shl(e)) {}

  lemma FlipMoved(v: nat, v': nat, n: nat, e: Reg)
    requires v % 2 == v' % 2 && ToReg(v' / 2, n) == Xor(ToReg(v / 2, n), e)
    ensures ToReg(v', n + 1) == Xor(ToReg(v, n + 1), Shl(e))
  {
    hide PushBit, Xor, Shl;
    PushFlipped(ToReg(v / 2, n), e, v % 2 == 1);
  }

  lemma FlipMade(v: nat, v': nat, n: nat)
    requires v / 2 == v' / 2 && v % 2 != v' % 2
    ensures ToReg(v', n + 1) == Xor(ToReg(v, n + 1), Reg(1))
  {
    hide PushBit, Xor;
    FlipPushed(ToReg(v / 2, n), v % 2 == 1);
  }

  /** v with bit k the other way. */
  predicate FlippedAt(v: nat, v': nat, k: nat) {
    if k == 0 then v' == (if v % 2 == 0 then v + 1 else v - 1)
    else v % 2 == v' % 2 && FlippedAt(v / 2, v' / 2, k - 1)
  }

  lemma {:induction false} ToRegFlipped(v: nat, v': nat, k: nat, n: nat)
    requires FlippedAt(v, v', k) && k < n
    ensures ToReg(v', n) == Xor(ToReg(v, n), ShlN(ONE, k))
    decreases k
  {
    hide Xor, Shl, PushBit;
    if k == 0 {
      assert v / 2 == v' / 2 && v % 2 != v' % 2;
      FlipMade(v, v', n - 1);
    } else {
      ToRegFlipped(v / 2, v' / 2, k - 1, n - 1);
      FlipMoved(v, v', n - 1, ShlN(ONE, k - 1));
    }
  }

  lemma UpFlipped(b: byte, f: byte, k: nat)
    requires FlippedAt(b, f, k) && k < 8
    ensures Up(f) == Xor(Up(b), Raised(ShlN(ONE, k)))
  {
    hide ToReg, Xor, Shl, Raised;
    ToRegFlipped(b, f, k, 8);
    RaisedLinear(Wide(b), ShlN(ONE, k));
  }

  lemma BitsAt(s: seq<byte>, i: nat, b: nat)
    requires i < |s| && b < 8
    ensures Bits(s)[8 * i + b] == BitsOf(s[i])[b]
  {
    hide BitsOf;
    BitsOfLast(s[..i], s[i]);
    assert s == (s[..i] + [s[i]]) + s[i + 1..];
    BitsConcat(s[..i] + [s[i]], s[i + 1..]);
  }

  lemma DifferenceAt(s: seq<byte>, t: seq<byte>, i: nat, b: nat)
    requires |s| == |t| && i < |s| && b < 8
    ensures Difference(Bits(s), Bits(t))[8 * i + b] == OctetDifference(s[i], t[i])[b]
  {
    hide Bits, BitsOf;
    BitsAt(s, i, b);
    BitsAt(t, i, b);
  }

  // ---- how many bits are flipped -------------------------------------------------------

  lemma {:induction false} OnesConcat(a: seq<bool>, b: seq<bool>)
    ensures Ones(a + b) == Ones(a) + Ones(b)
  {
    if b == [] {
      assert a + b == a;
    } else {
      var k := |b| - 1;
      OnesConcat(a, b[..k]);
      assert (a + b)[..|a| + k] == a + b[..k];
    }
  }

  lemma {:induction false} OnesIsZero(d: seq<bool>)
    ensures Ones(d) == 0 <==> EndsIn(d, 0)
  {
    if d != [] {
      OnesIsZero(d[..|d| - 1]);
    }
  }

  /** The number of bits in which two octet sequences differ. */
  function Flips(a: seq<byte>, b: seq<byte>): nat
    requires |a| == |b|
  {
    Ones(Difference(Bits(a), Bits(b)))
  }

  lemma FlipsSnoc(a: seq<byte>, b: seq<byte>, x: byte, y: byte)
    requires |a| == |b|
    ensures Flips(a + [x], b + [y]) == Flips(a, b) + Ones(OctetDifference(x, y))
  {
    hide Ones, Bits, BitsOf;
    BitsOfLast(a, x);
    BitsOfLast(b, y);
    OnesConcat(Difference(Bits(a), Bits(b)), OctetDifference(x, y));
    assert Difference(Bits(a + [x]), Bits(b + [y])) == Difference(Bits(a), Bits(b)) + OctetDifference(x, y);
  }

  lemma FlipsIsZero(a: seq<byte>, b: seq<byte>)
    requires |a| == |b|
    ensures Flips(a, b) == 0 <==> a == b
  {
    hide Ones, Bits;
    OnesIsZero(Difference(Bits(a), Bits(b)));
    if Flips(a, b) == 0 {
      SameBits(a, b);
    }
  }

  lemma OneOctet(x: byte)
    ensures Ones(OctetDifference(x, x)) == 0
  {
    hide Ones, BitsOf;
    OnesIsZero(OctetDifference(x, x));
  }

  // ---- one flipped bit as a power of x -------------------------------------------------

  /** n bits of which only i is set. */
  function Unit(n: nat, i: nat): (d: seq<bool>)
    ensures |d| == n && forall k :: 0 <= k < n ==> (d[k] <==> k == i)
  {
    seq(n, k => k == i)
  }

  /** The power of x bit i of n stands for: the payload counts down to 16, the check octets travel low octet first. */
  function Exponent(n: nat, i: nat): nat
    requires 16 <= n && i < n
  {
    if i < n - 16 then n - 1 - i else if i < n - 8 then n - 9 - i else n + 7 - i
  }

  /** What a pattern of flipped bits, payload and check, leaves of the agreement of the two. */
  function Syndrome(d: seq<bool>): Reg
    requires |d| >= 16
  {
    Xor(CrcOfBits(d[..|d| - 16], ZERO), Swapped(Pack(d[|d| - 16..])))
  }

  lemma DifferenceParts(u: seq<byte>, v: seq<byte>)
    requires |u| == |v| >= 2
    ensures var d := Difference(Bits(u), Bits(v));
            d[..|d| - 16] == DataDifference(u, v) && d[|d| - 16..] == CheckDifference(u, v)
  {
    hide Bits;
    BitsSplit(u);
    BitsSplit(v);
  }

  lemma SyndromeIs(u: seq<byte>, v: seq<byte>)
    requires |u| == |v| >= 2
    ensures Syndrome(Difference(Bits(u), Bits(v))) ==
            Xor(CrcOfBits(DataDifference(u, v), ZERO), Xor(Check(u), Check(v)))
  {
    hide CrcWord, Xor, Swapped, CrcOfBits, Bits, Pack, Difference;
    DifferenceParts(u, v);
    CheckErrorIs(u, v);
    SwappedTwice(Xor(Check(u), Check(v)));
  }

  lemma XorZeroIff(a: Reg, b: Reg)
    ensures Xor(a, b) == ZERO <==> a == b
  {
    hide Xor;
    XorSelf(b);
    if Xor(a, b) == ZERO {
      XorZero(a, b);
    }
  }

  lemma AcceptedIffNoSyndrome(u: seq<byte>, v: seq<byte>)
    requires |u| == |v| && Accepts(u)
    ensures Accepts(v) <==> Syndrome(Difference(Bits(u), Bits(v))) == ZERO
  {
    hide Crc, CrcWord, Xor, CrcOfBits, Bits, Syndrome, Difference;
    SyndromeIs(u, v);
    ErrorUndetectedIff(u, v);
    XorZeroIff(CrcOfBits(DataDifference(u, v), ZERO), Xor(Check(u), Check(v)));
  }

  lemma PushLinear(x: Reg, y: Reg, p: bool, q: bool)
    ensures PushBit(Xor(x, y), p != q) == Xor(PushBit(x, p), PushBit(y, q))
  {
  }

  lemma {:induction false} PackLinear(a: seq<bool>, b: seq<bool>)
    requires |a| == |b|
    ensures Pack(Difference(a, b)) == Xor(Pack(a), Pack(b))
  {
    hide PushBit, Xor;
    if a == [] {
      XorSelf(ZERO);
    } else {
      var k := |a| - 1;
      PackLinear(a[..k], b[..k]);
      assert Difference(a, b)[..k] == Difference(a[..k], b[..k]);
      PushLinear(Pack(a[..k]), Pack(b[..k]), a[k], b[k]);
    }
  }

  lemma SyndromeLinear(a: seq<bool>, b: seq<bool>)
    requires |a| == |b| >= 16
    ensures Syndrome(Difference(a, b)) == Xor(Syndrome(a), Syndrome(b))
  {
    hide Xor, CrcOfBits, Pack, Swapped;
    var k := |a| - 16;
    assert Difference(a, b)[..k] == Difference(a[..k], b[..k]);
    assert Difference(a, b)[k..] == Difference(a[k..], b[k..]);
    XorSelf(ZERO);
    CrcLinear(a[..k], b[..k], ZERO, ZERO);
    PackLinear(a[k..], b[k..]);
    SwappedLinear(Pack(a[k..]), Pack(b[k..]));
    XorPairs(CrcOfBits(a[..k], ZERO), CrcOfBits(b[..k], ZERO), Swapped(Pack(a[k..])), Swapped(Pack(b[k..])));
  }

  lemma FalseStep(r: Reg) ensures BitStep(r, false) == Shift(r) {}

  lemma {:induction false} ShiftedByZeros(r: Reg, k: nat)
    ensures CrcOfBits(Zeros(k), r) == ShiftN(r, k)
    decreases k
  {
    hide BitStep, Shift;
    if k > 0 {
      ShiftedByZeros(r, k - 1);
      assert Zeros(k)[..k - 1] == Zeros(k - 1);
      FalseStep(ShiftN(r, k - 1));
    }
  }

  lemma TrueStep()
    ensures BitStep(ZERO, true) == Power(16)
  {
    hide Power;
    PowersOfTwo();
  }

  lemma UnitParts(n: nat, i: nat)
    requires i < n
    ensures Unit(n, i) == Zeros(i) + [true] + Zeros(n - 1 - i)
  {
  }

  lemma CrcOfUnit(m: nat, i: nat)
    requires i < m
    ensures CrcOfBits(Unit(m, i), ZERO) == Power(16 + (m - 1 - i))
  {
    hide BitStep, CrcOfBits, ShiftN;
    var k := m - 1 - i;
    UnitParts(m, i);
    CrcOfBitsConcat(Zeros(i) + [true], Zeros(k), ZERO);
    CrcOfBitsSnoc(Zeros(i), true, ZERO);
    CrcOfZeros(Zeros(i));
    TrueStep();
    ShiftedByZeros(Power(16), k);
    ShiftNSum(ONE, 16, k);
  }

  lemma {:induction false} TopBitAt(x: Reg, n: nat, j: nat)
    requires j < n
    ensures TopBits(x, n)[j] == Top(ShlN(x, j))
    decreases n
  {
    hide Top, Shl;
    if j < n - 1 {
      TopBitAt(x, n - 1, j);
    }
  }

  lemma {:induction false} SmallPower(k: nat)
    requires k <= 15
    ensures Power(k) == ShlN(ONE, k)
    decreases k
  {
    hide Shift, Shl, Top, TopBits;
    if k > 0 {
      SmallPower(k - 1);
      TopBitsOfOne();
      TopBitAt(ONE, 16, k - 1);
      ShiftLow(ShlN(ONE, k - 1));
    }
  }

  lemma PushFalse(x: Reg) ensures PushBit(x, false) == Shl(x) {}

  lemma PushOne() ensures PushBit(ZERO, true) == ONE {}

  lemma {:induction false} PackOfOne(c: nat, k: nat)
    ensures Pack(Zeros(c) + [true] + Zeros(k)) == ShlN(ONE, k)
    decreases k
  {
    hide PushBit, Shl;
    var d := Zeros(c) + [true] + Zeros(k);
    if k == 0 {
      assert d == Zeros(c) + [true];
      PackSnoc(Zeros(c), true);
      PackOfZeros(Zeros(c));
      PushOne();
    } else {
      PackOfOne(c, k - 1);
      assert d == (Zeros(c) + [true] + Zeros(k - 1)) + [false];
      PackSnoc(Zeros(c) + [true] + Zeros(k - 1), false);
      PushFalse(ShlN(ONE, k - 1));
    }
  }

  lemma OctetPowers()
    ensures forall k :: 0 <= k < 8 ==> Fits(ShlN(ONE, k), BYTE)
  {
    assert ShlN(ONE, 2) == Reg(4);
    assert ShlN(ONE, 4) == Reg(0x10);
    assert ShlN(ONE, 6) == Reg(0x40);
  }

  lemma SwappedOctet(x: Reg)
    requires Fits(x, BYTE)
    ensures Swapped(x) == Raised(x)
  {
  }

  lemma ShlNEight(x: Reg, k: nat)
    ensures ShlN(x, k + 8) == Raised(ShlN(x, k))
  {
    hide Shl, Raised;
    ShlNFour(x, k);
    ShlNFour(x, k + 4);
    EightTimes(ShlN(x, k));
  }

  lemma SwappedPower(k: nat)
    requires k < 8
    ensures Swapped(ShlN(ONE, k)) == Power(k + 8) && Swapped(ShlN(ONE, k + 8)) == Power(k)
  {
    hide Swapped, Raised, Fits, Shl, Power;
    OctetPowers();
    SwappedOctet(ShlN(ONE, k));
    ShlNEight(ONE, k);
    SwappedTwice(ShlN(ONE, k));
    SmallPower(k);
    SmallPower(k + 8);
  }

  lemma SwappedZero() ensures Swapped(ZERO) == ZERO {}

  lemma SyndromeOfUnit(n: nat, i: nat)
    requires 16 <= n && i < n
    ensures Syndrome(Unit(n, i)) == Power(Exponent(n, i))
  {
    hide Xor, CrcOfBits, Pack, Swapped, Power, ShlN;
    var m := n - 16;
    var d := Unit(n, i);
    if i < m {
      assert d[..m] == Unit(m, i) && d[m..] == Zeros(16);
      CrcOfUnit(m, i);
      PackOfZeros(Zeros(16));
      SwappedZero();
      XorNothing(Power(16 + (m - 1 - i)));
    } else {
      var c := i - m;
      assert d[..m] == Zeros(m) && d[m..] == Unit(16, c);
      CrcOfZeros(Zeros(m));
      UnitParts(16, c);
      PackOfOne(c, 15 - c);
      SwappedPower(if c < 8 then 7 - c else 15 - c);
      XorCommutes(ZERO, Power(Exponent(n, i)));
      XorNothing(Power(Exponent(n, i)));
    }
  }

  // ---- two flipped bits ----------------------------------------------------------------

  /** d has exactly the bits i and j set. */
  predicate TwoSet(d: seq<bool>, i: nat, j: nat) {
    i < j < |d| && d == Difference(Unit(|d|, i), Unit(|d|, j))
  }

  /** Two flipped bits go unnoticed exactly if their powers of x agree modulo the order of x. */
  lemma TwoFlipsIff(u: seq<byte>, v: seq<byte>, i: nat, j: nat)
    requires |u| == |v| && Accepts(u) && TwoSet(Difference(Bits(u), Bits(v)), i, j)
    ensures Accepts(v) <==> Exponent(8 * |u|, i) % 32767 == Exponent(8 * |u|, j) % 32767
  {
    hide Crc, CrcWord, Xor, Bits, Syndrome, Power, Exponent;
    var n := 8 * |u|;
    AcceptedIffNoSyndrome(u, v);
    SyndromeLinear(Unit(n, i), Unit(n, j));
    SyndromeOfUnit(n, i);
    SyndromeOfUnit(n, j);
    var p, q := Power(Exponent(n, i)), Power(Exponent(n, j));
    XorZeroIff(p, q);
    PowersAgreeIff(Exponent(n, i), Exponent(n, j));
  }

  lemma {:induction false} OneSet(d: seq<bool>) returns (i: nat)
    requires Ones(d) == 1
    ensures i < |d| && d == Unit(|d|, i)
  {
    var k := |d| - 1;
    if d[k] {
      i := k;
      OnesIsZero(d[..k]);
    } else {
      i := OneSet(d[..k]);
    }
  }

  lemma {:induction false} FindTwo(d: seq<bool>) returns (i: nat, j: nat)
    requires Ones(d) == 2
    ensures TwoSet(d, i, j)
  {
    var k := |d| - 1;
    if d[k] {
      i := OneSet(d[..k]);
      j := k;
    } else {
      i, j := FindTwo(d[..k]);
    }
  }

  lemma ExponentsDiffer(n: nat, i: nat, j: nat)
    requires 16 <= n <= 32767 && i < j < n
    ensures Exponent(n, i) % 32767 != Exponent(n, j) % 32767
  {
  }

  /** Up to three flipped bits anywhere in payload and check are caught while those are no longer than 4095 octets. */
  lemma FewFlipsRejected(u: seq<byte>, v: seq<byte>)
    requires |u| == |v| <= 4095 && Accepts(u) && 1 <= Flips(u, v) <= 3
    ensures !Accepts(v)
  {
    hide Ones, Bits, Crc, CrcWord, Exponent;
    if Flips(u, v) == 2 {
      var i, j := FindTwo(Difference(Bits(u), Bits(v)));
      TwoFlipsIff(u, v, i, j);
      ExponentsDiffer(8 * |u|, i, j);
    } else {
      OddErrorRejected(u, v);
    }
  }

  // ---- beyond that length --------------------------------------------------------------

  /** b with its first bit flipped. */
  function FlipFirst(b: byte): byte { if b < 0x80 then b + 0x80 else b - 0x80 }

  lemma FlipFirstBits(b: byte)
    ensures OctetDifference(b, FlipFirst(b)) == Unit(8, 0)
  {
    hide Up, Xor, TopBits, Pow2;
    EighthPower();
    LeadingFlipped(b, FlipFirst(b), 7);
    UpFlipped(b, FlipFirst(b), 7);
    TopBitsLinear(Up(b), Raised(ShlN(ONE, 7)), 8);
    SevenUp();
    TopBitsOfTop();
    UndoDifference(BitsOf(b), TopBits(TOP, 8));
  }

  lemma {:induction false} LeadingFlipped(v: nat, v': nat, k: nat)
    requires v < 2 * Pow2(k) && v' == if v < Pow2(k) then v + Pow2(k) else v - Pow2(k)
    ensures FlippedAt(v, v', k)
    decreases k
  {
    if k > 0 {
      LeadingFlipped(v / 2, v' / 2, k - 1);
    }
  }

  lemma EighthPower() ensures Pow2(7) == 0x80 {}

  lemma SevenUp()
    ensures Raised(ShlN(ONE, 7)) == TOP
  {
    assert ShlN(ONE, 3) == Reg(8);
    assert ShlN(ONE, 6) == Reg(0x40);
  }

  lemma TopBitsOfTop()
    ensures TopBits(TOP, 8) == Unit(8, 0)
  {
    hide TopBits, Shl, Top;
    ShlFirst(TOP, 7);
    TopIsTop();
    TopBitsOfZero(7);
    assert Unit(8, 0) == [true] + Zeros(7);
  }

  lemma TopIsTop() ensures Top(TOP) && Shl(TOP) == ZERO {}

  lemma UndoDifference(a: seq<bool>, d: seq<bool>)
    requires |a| == |d|
    ensures Difference(a, Difference(a, d)) == d
  {
  }

  lemma FlipLastDifference(b: byte)
    ensures OctetDifference(b, FlipLast(b)) == Unit(8, 7)
  {
    hide Up, Xor, FlipLast, TopBits;
    FlipLastIs(b);
    TopBitsLinear(Up(b), Reg(0x100), 8);
    TopBitsOfFlip();
    UndoDifference(BitsOf(b), TopBits(Reg(0x100), 8));
  }

  /** u with two bits flipped whose powers of x are 32767 and 0. */
  function Twin(u: seq<byte>): (v: seq<byte>)
    requires |u| >= 4096
    ensures |v| == |u|
  {
    var i, j := |u| - 4096, |u| - 2;
    u[i := FlipFirst(u[i])][j := FlipLast(u[j])]
  }

  lemma SameOctet(x: byte)
    ensures OctetDifference(x, x) == Zeros(8)
  {
    hide BitsOf;
  }

  lemma TwinOctet(u: seq<byte>, o: nat)
    requires o < |u| && |u| >= 4096
    ensures OctetDifference(u[o], Twin(u)[o]) ==
            if o == |u| - 4096 then Unit(8, 0) else if o == |u| - 2 then Unit(8, 7) else Zeros(8)
  {
    hide OctetDifference, FlipFirst, FlipLast;
    if o == |u| - 4096 {
      FlipFirstBits(u[o]);
    } else if o == |u| - 2 {
      FlipLastDifference(u[o]);
    } else {
      SameOctet(u[o]);
    }
  }

  /** Bit b of octet o. */
  predicate BitAt(d: seq<bool>, o: nat, b: nat) { 8 * o + b < |d| && d[8 * o + b] }

  lemma TwinAt(u: seq<byte>, o: nat, b: nat)
    requires |u| >= 4096 && o < |u| && b < 8
    ensures BitAt(Difference(Bits(u), Bits(Twin(u))), o, b) <==>
            (o == |u| - 4096 && b == 0) || (o == |u| - 2 && b == 7)
  {
    hide OctetDifference, Bits, Twin, Difference;
    DifferenceAt(u, Twin(u), o, b);
    TwinOctet(u, o);
  }

  lemma TwoSetIs(d: seq<bool>, n: nat, i: nat, j: nat)
    requires |d| == 8 * n && i < j < n
    requires forall o: nat, b: nat :: o < n && b < 8 ==> (BitAt(d, o, b) <==> (o == i && b == 0) || (o == j && b == 7))
    ensures TwoSet(d, 8 * i, 8 * j + 7)
  {
    forall g | 0 <= g < |d| ensures d[g] == (g == 8 * i || g == 8 * j + 7) {
      assert BitAt(d, g / 8, g % 8) == d[g];
    }
    assert d == Difference(Unit(|d|, 8 * i), Unit(|d|, 8 * j + 7));
  }

  lemma TwinDifference(u: seq<byte>)
    requires |u| >= 4096
    ensures TwoSet(Difference(Bits(u), Bits(Twin(u))), 8 * (|u| - 4096), 8 * (|u| - 2) + 7)
  {
    hide Bits, Twin, TwoSet, Difference, BitAt;
    forall o: nat, b: nat | o < |u| && b < 8
      ensures BitAt(Difference(Bits(u), Bits(Twin(u))), o, b) <==>
              (o == |u| - 4096 && b == 0) || (o == |u| - 2 && b == 7)
    {
      TwinAt(u, o, b);
    }
    TwoSetIs(Difference(Bits(u), Bits(Twin(u))), |u|, |u| - 4096, |u| - 2);
  }

  lemma {:induction false} OnesOfUnit(n: nat, i: nat)
    ensures Ones(Unit(n, i)) == if i < n then 1 else 0
    decreases n
  {
    if n > 0 {
      OnesOfUnit(n - 1, i);
      assert Unit(n, i)[..n - 1] == Unit(n - 1, i);
    }
  }

  lemma {:induction false} OnesOfTwo(n: nat, i: nat, j: nat)
    requires i < j < n
    ensures Ones(Difference(Unit(n, i), Unit(n, j))) == 2
    decreases n
  {
    var d := Difference(Unit(n, i), Unit(n, j));
    if j < n - 1 {
      OnesOfTwo(n - 1, i, j);
      assert d[..n - 1] == Difference(Unit(n - 1, i), Unit(n - 1, j));
    } else {
      OnesOfUnit(n - 1, i);
      assert d[..n - 1] == Unit(n - 1, i);
    }
  }

  /** 4095 octets is the most: anything longer that is accepted has an accepted neighbour two flipped bits away. */
  lemma TwinAccepted(u: seq<byte>)
    requires |u| >= 4096 && Accepts(u)
    ensures Accepts(Twin(u)) && Flips(u, Twin(u)) == 2
  {
    hide Bits, Crc, CrcWord, Twin, Ones;
    var n := 8 * |u|;
    var i, j := 8 * (|u| - 4096), 8 * (|u| - 2) + 7;
    TwinDifference(u);
    TwoFlipsIff(u, Twin(u), i, j);
    OnesOfTwo(n, i, j);
  }
}
