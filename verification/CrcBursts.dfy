/**
 Bursts that lie across the end of the payload. The check octets travel low octet first although
 the register is most significant bit first, so such a burst can go unnoticed: here is which do.
 */
module CrcBursts {
  import opened Bytes
  import opened Crc16
  import opened CrcBits
  import opened CrcDetection

  // ---- bits gathered into a register -----------------------------------------------

  /** The last 16 bits, earlier ones being pushed out. */
  function Pack(bits: seq<bool>): Reg {
    if bits == [] then ZERO else PushBit(Pack(bits[..|bits| - 1]), bits[|bits| - 1])
  }

  function Zeros(n: nat): (bits: seq<bool>)
    ensures |bits| == n && forall i :: 0 <= i < n ==> !bits[i]
  {
    seq(n, _ => false)
  }

  lemma PushIs(x: Reg, bit: bool) ensures PushBit(x, bit) == Xor(Shl(x), if bit then Reg(1) else ZERO) {}

  lemma {:induction false} TopBitsOfZero(n: nat)
    ensures ShlN(ZERO, n) == ZERO && TopBits(ZERO, n) == Zeros(n)
  {
    hide Shl, Top;
    if n > 0 {
      TopBitsOfZero(n - 1);
      ZeroHasNoTop();
    }
  }

  lemma {:induction false} TopBitsSplit(x: Reg, m: nat, n: nat)
    ensures ShlN(x, m + n) == ShlN(ShlN(x, m), n)
    ensures TopBits(x, m + n) == TopBits(x, m) + TopBits(ShlN(x, m), n)
    decreases n
  {
    hide Shl, Top;
    if n > 0 {
      TopBitsSplit(x, m, n - 1);
    }
  }

  lemma {:induction false} NoTopBits(x: Reg, m: Reg, n: nat)
    requires Fits(x, m) && forall i :: 0 <= i < n ==> !Top(ShlN(m, i))
    ensures Fits(ShlN(x, n), ShlN(m, n)) && TopBits(x, n) == Zeros(n)
    decreases n
  {
    hide Shl, Fits, Top;
    if n > 0 {
      NoTopBits(x, m, n - 1);
      ShlBelow(ShlN(x, n - 1), ShlN(m, n - 1));
    }
  }

  lemma TopBitsOfFlip()
    ensures TopBits(Reg(0x100), 8) == Zeros(7) + [true]
  {
    assert ShlN(Reg(0x100), 2) == Reg(0x400);
    assert ShlN(Reg(0x100), 4) == Reg(0x1000);
    assert ShlN(Reg(0x100), 6) == Reg(0x4000);
  }

  lemma OneFits() ensures Fits(Reg(1), BYTE) {}

  lemma OneShifted()
    ensures ShlN(Reg(1), 8) == Reg(0x100)
  {
    assert ShlN(Reg(1), 4) == Reg(0x10);
    ShlNFour(Reg(1), 4);
  }

  lemma TopBitsOfOne()
    ensures TopBits(Reg(1), 16) == Zeros(15) + [true]
  {
    hide TopBits, Fits, Shl;
    OneFits();
    ByteClear();
    NoTopBits(Reg(1), BYTE, 8);
    OneShifted();
    TopBitsOfFlip();
    TopBitsSplit(Reg(1), 8, 8);
    assert Zeros(15) + [true] == Zeros(8) + (Zeros(7) + [true]);
  }

  lemma ShiftedBy(a: seq<bool>, b: seq<bool>, first: bool, last: bool)
    requires a != [] && a + [last] == [first] + b
    ensures b == a[1..] + [last]
  {
    assert b == ([first] + b)[1..];
    assert (a + [last])[1..] == a[1..] + [last];
  }

  lemma TopBitsOfShl(x: Reg)
    ensures TopBits(Shl(x), 16) == TopBits(x, 16)[1..] + [false]
  {
    hide Shl, Top;
    ShlFirst(x, 16);
    AllShiftedOut(x);
    ZeroHasNoTop();
    ShiftedBy(TopBits(x, 16), TopBits(Shl(x), 16), Top(x), false);
  }

  lemma TopBitsOfPush(x: Reg, bit: bool)
    ensures TopBits(PushBit(x, bit), 16) == TopBits(x, 16)[1..] + [bit]
  {
    hide Shl, Xor, PushBit, TopBits;
    PushIs(x, bit);
    TopBitsOfShl(x);
    TopBitsOfOne();
    TopBitsOfZero(16);
    TopBitsLinear(Shl(x), if bit then Reg(1) else ZERO, 16);
  }

  lemma {:induction false} TopBitsOfPack(d: seq<bool>)
    ensures TopBits(Pack(d), 16) == (Zeros(16) + d)[|d|..]
  {
    hide PushBit, TopBits;
    if d == [] {
      TopBitsOfZero(16);
    } else {
      var k := |d| - 1;
      TopBitsOfPack(d[..k]);
      TopBitsOfPush(Pack(d[..k]), d[k]);
      assert (Zeros(16) + d)[|d|..] == (Zeros(16) + d[..k])[k..][1..] + [d[k]];
    }
  }

  /** d has no set bit before its last n. */
  predicate EndsIn(d: seq<bool>, n: nat) { forall i :: 0 <= i < |d| - n ==> !d[i] }

  /** Such bits leave in the register what shifting them in at once does. */
  lemma CrcOfPacked(d: seq<bool>)
    requires EndsIn(d, 16)
    ensures CrcOfBits(d, ZERO) == ShiftN(Pack(d), 16)
  {
    hide Shift, Xor, BitStep, CrcOfBits, TopBits, Pack;
    var e, z := Pack(d), Zeros(16) + d;
    TopBitsOfPack(d);
    TakeInN(ZERO, e, 16);
    AllShiftedOut(e);
    XorNothing(CrcOfBits(z[|d|..], ZERO));
    XorCommutes(ZERO, e);
    XorNothing(e);
    assert z == z[..|d|] + z[|d|..];
    CrcOfBitsConcat(z[..|d|], z[|d|..], ZERO);
    CrcOfZeros(z[..|d|]);
    CrcOfBitsConcat(Zeros(16), d, ZERO);
    CrcOfZeros(Zeros(16));
  }

  lemma PushNothing() ensures PushBit(ZERO, false) == ZERO {}

  lemma {:induction false} PackOfZeros(d: seq<bool>)
    requires EndsIn(d, 0)
    ensures Pack(d) == ZERO
  {
    hide PushBit;
    if d != [] {
      PackOfZeros(d[..|d| - 1]);
      PushNothing();
    }
  }

  lemma PackIsZero(d: seq<bool>)
    requires EndsIn(d, 16) && Pack(d) == ZERO
    ensures EndsIn(d, 0)
  {
    hide Pack, TopBits;
    TopBitsOfPack(d);
    TopBitsOfZero(16);
    var z := Zeros(16) + d;
    forall i | 0 <= i < |d| ensures !d[i] {
      assert d[i] == z[i + 16];
      if i + 16 >= |d| {
        assert z[i + 16] == z[|d|..][i + 16 - |d|];
      }
    }
  }

  lemma {:induction false} PackFits(d: seq<bool>, n: nat)
    requires n <= |d| && EndsIn(d, n)
    ensures Fits(Pack(d), Mask(n))
  {
    hide PushBit, Fits;
    if n == 0 {
      PackOfZeros(d);
      FitsNothing(Mask(0));
    } else {
      var k := |d| - 1;
      PackFits(d[..k], n - 1);
      FitsPush(Pack(d[..k]), d[k], Mask(n - 1));
    }
  }

  /** x has none of the bits of m. */
  predicate Clear(x: Reg, m: Reg) { And(x, m) == ZERO }

  lemma ClearPush(x: Reg, m: Reg)
    requires Clear(x, m)
    ensures Clear(PushBit(x, false), PushBit(m, true))
  {
  }

  lemma ClearNothing(x: Reg) ensures Clear(x, ZERO) {}

  /** d has no set bit after its first n. */
  predicate StartsIn(d: seq<bool>, n: nat) { forall i :: n <= i < |d| ==> !d[i] }

  lemma {:induction false} PackClear(d: seq<bool>, n: nat)
    requires n <= |d| && StartsIn(d, |d| - n)
    ensures Clear(Pack(d), Mask(n))
  {
    hide PushBit, Clear;
    if n == 0 {
      ClearNothing(Pack(d));
    } else {
      var k := |d| - 1;
      PackClear(d[..k], n - 1);
      ClearPush(Pack(d[..k]), Mask(n - 1));
    }
  }

  // ---- the error in the check octets -------------------------------------------------

  /** The register with its octets in the order they travel. */
  function Swapped(x: Reg): Reg { Reg((x.v << 8) | (x.v >> 8)) }

  lemma SwappedTwice(x: Reg) ensures Swapped(Swapped(x)) == x {}

  lemma SwappedLinear(x: Reg, y: Reg) ensures Swapped(Xor(x, y)) == Xor(Swapped(x), Swapped(y)) {}

  lemma SwappedJoined(lo: Reg, hi: Reg)
    requires Fits(lo, BYTE) && Fits(hi, BYTE)
    ensures Swapped(Joined(lo, hi)) == Xor(Raised(lo), hi)
  {
  }

  lemma SwappedWord(lo: byte, hi: byte)
    ensures Swapped(CrcWord(lo, hi)) == Xor(Up(lo), Wide(hi))
  {
    hide Wide, Joined, Xor, Raised, Fits, Swapped;
    WideFits(lo);
    WideFits(hi);
    SwappedJoined(Wide(lo), Wide(hi));
  }

  lemma TopBitsOfUp(b: byte)
    ensures TopBits(Up(b), 16) == BitsOf(b) + Zeros(8)
  {
    hide Up, TopBits;
    TopBitsSplit(Up(b), 8, 8);
    ShiftedOut(b);
    TopBitsOfZero(8);
  }

  lemma WideShifted(b: byte)
    ensures ShlN(Wide(b), 8) == Up(b)
  {
    hide Wide, Shl, Raised;
    ShlNFour(Wide(b), 0);
    ShlNFour(Wide(b), 4);
    EightTimes(Wide(b));
  }

  lemma TopBitsOfWide(b: byte)
    ensures TopBits(Wide(b), 16) == Zeros(8) + BitsOf(b)
  {
    hide Wide, Up, Fits, TopBits;
    WideFits(b);
    ByteClear();
    NoTopBits(Wide(b), BYTE, 8);
    TopBitsSplit(Wide(b), 8, 8);
    WideShifted(b);
  }

  /** The bits of the check octets on the wire. */
  lemma BitsOfCheck(lo: byte, hi: byte)
    ensures TopBits(Swapped(CrcWord(lo, hi)), 16) == Bits([lo, hi])
  {
    hide Xor, Up, Wide, TopBits, Swapped, CrcWord, BitsOf;
    SwappedWord(lo, hi);
    TopBitsLinear(Up(lo), Wide(hi), 16);
    TopBitsOfUp(lo);
    TopBitsOfWide(hi);
    assert [lo, hi][..1] == [lo];
    assert Bits([lo]) == BitsOf(lo);
    assert Bits([lo, hi]) == BitsOf(lo) + BitsOf(hi);
  }

  function DataDifference(u: seq<byte>, v: seq<byte>): (d: seq<bool>)
    requires |u| == |v| >= 2
    ensures |d| == 8 * |u| - 16
  {
    Difference(Bits(Data(u)), Bits(Data(v)))
  }

  function CheckDifference(u: seq<byte>, v: seq<byte>): (d: seq<bool>)
    requires |u| == |v| >= 2
    ensures |d| == 16
  {
    Difference(Bits(u[|u| - 2..]), Bits(v[|v| - 2..]))
  }

  /** The flipped bits among the last 16 of the payload, and among the 16 of the check, as sent. */
  function PayloadError(u: seq<byte>, v: seq<byte>): Reg
    requires |u| == |v| >= 2
  {
    Pack(DataDifference(u, v))
  }

  function CheckError(u: seq<byte>, v: seq<byte>): Reg
    requires |u| == |v| >= 2
  {
    Pack(CheckDifference(u, v))
  }

  lemma CheckErrorIs(u: seq<byte>, v: seq<byte>)
    requires |u| == |v| >= 2
    ensures CheckError(u, v) == Swapped(Xor(Check(u), Check(v)))
  {
    hide Xor, Swapped, CrcWord, TopBits, Pack, Bits;
    var n := |u|;
    var c := CheckDifference(u, v);
    assert u[n - 2..] == [u[n - 2], u[n - 1]] && v[n - 2..] == [v[n - 2], v[n - 1]];
    BitsOfCheck(u[n - 2], u[n - 1]);
    BitsOfCheck(v[n - 2], v[n - 1]);
    SwappedLinear(Check(u), Check(v));
    TopBitsLinear(Swapped(Check(u)), Swapped(Check(v)), 16);
    TopBitsOfPack(c);
    assert (Zeros(16) + c)[16..] == c;
    RegDetermined(Pack(c), Swapped(Xor(Check(u), Check(v))));
  }

  // ---- the patterns that escape ------------------------------------------------------

  /** Twelve patterns of errors at the end of the payload and in the check. */
  predicate Escapes(e: Reg, s: Reg) {
    || (e == Reg(0x1) && s == Reg(0x2110)) || (e == Reg(0x2) && s == Reg(0x4220))
    || (e == Reg(0x3) && s == Reg(0x6330)) || (e == Reg(0x4) && s == Reg(0x8440))
    || (e == Reg(0x5) && s == Reg(0xA550)) || (e == Reg(0x6) && s == Reg(0xC660))
    || (e == Reg(0x7) && s == Reg(0xE770)) || (e == Reg(0x89) && s == Reg(0xA100))
    || (e == Reg(0x235) && s == Reg(0x9400)) || (e == Reg(0x8C5) && s == Reg(0x4000))
    || (e == Reg(0x118A) && s == Reg(0x8000)) || (e == Reg(0x194F) && s == Reg(0xC000))
  }

  function Shift4(x: Reg): Reg { Shift(Shift(Shift(Shift(x)))) }

  lemma ShiftNFour(x: Reg, n: nat)
    ensures ShiftN(x, n + 4) == Shift4(ShiftN(x, n))
  {
    hide Shift;
    assert ShiftN(x, n + 2) == Shift(Shift(ShiftN(x, n)));
  }

  lemma ShiftNIs(x: Reg)
    ensures ShiftN(x, 16) == Shift4(Shift4(Shift4(Shift4(x))))
  {
    hide Shift, Shift4;
    ShiftNFour(x, 0);
    ShiftNFour(x, 4);
    ShiftNFour(x, 8);
    ShiftNFour(x, 12);
  }

  /** m is all ones below some bit, and not all of them. */
  predicate LowOnes(m: Reg) { m.v & (m.v + 1) == 0 && m.v != 0xFFFF }

  lemma LowOnesPush(m: Reg)
    requires LowOnes(m) && !Top(PushBit(m, true))
    ensures LowOnes(PushBit(m, true))
  {
  }

  lemma LowOnesNothing() ensures LowOnes(Reg(0)) {}

  lemma {:induction false} MaskIsLowOnes(n: nat)
    requires n <= 15
    ensures LowOnes(Mask(n))
  {
    hide LowOnes, PushBit, Top;
    if n == 0 {
      LowOnesNothing();
    } else {
      MaskIsLowOnes(n - 1);
      MaskIsLow(n);
      LowOnesPush(Mask(n - 1));
    }
  }

  lemma UnnoticedEscapes(e: Reg, m: bv16)
    requires e.v & !m == 0 && e.v != 0 && m & (m + 1) == 0 && m != 0xFFFF
    requires Swapped(Shift4(Shift4(Shift4(Shift4(e))))).v & m == 0
    ensures Escapes(e, Swapped(Shift4(Shift4(Shift4(Shift4(e))))))
  {
  }

  lemma EscapesUnnoticed(e: Reg, s: Reg)
    requires Escapes(e, s)
    ensures s == Swapped(Shift4(Shift4(Shift4(Shift4(e)))))
  {
  }

  lemma EscapesIsLong(e: Reg, s: Reg, m: Reg)
    requires Fits(e, m) && LowOnes(m) && Clear(s, PushBit(PushBit(PushBit(PushBit(m, true), true), true), true))
    ensures !Escapes(e, s)
  {
  }

  lemma EscapesTouchBoth(e: Reg, s: Reg)
    requires Escapes(e, s)
    ensures e != ZERO && s != ZERO
  {
  }

  // ---- which bursts go unnoticed -----------------------------------------------------

  lemma AcceptedAgain(u: seq<byte>, v: seq<byte>)
    requires |u| == |v| && Accepts(u) && EndsIn(DataDifference(u, v), 16)
    ensures Accepts(v) <==> CheckError(u, v) == Swapped(Shift4(Shift4(Shift4(Shift4(PayloadError(u, v))))))
  {
    hide Accepts, Xor, Swapped, Shift4, CheckError, Check, Pack, CrcOfBits, ShiftN, EndsIn;
    ErrorUndetectedIff(u, v);
    CrcOfPacked(DataDifference(u, v));
    ShiftNIs(PayloadError(u, v));
    CheckErrorIs(u, v);
    SwappedTwice(Xor(Check(u), Check(v)));
    SwappedTwice(ShiftN(PayloadError(u, v), 16));
  }

  lemma SameBits(a: seq<byte>, b: seq<byte>)
    requires |a| == |b| && EndsIn(Difference(Bits(a), Bits(b)), 0)
    ensures a == b
  {
    hide Bits;
    assert Bits(a) == Bits(b);
    BitsInjective(a, b);
  }

  lemma NoDifference(a: seq<byte>, b: seq<byte>)
    requires a == b
    ensures Pack(Difference(Bits(a), Bits(b))) == ZERO
  {
    hide Bits, Pack;
    PackOfZeros(Difference(Bits(a), Bits(b)));
  }

  /** Errors within n bits from w on: which bits of the payload, and of the check, may differ. */
  lemma PayloadPart(u: seq<byte>, v: seq<byte>, w: nat, n: nat, j: nat)
    requires |u| == |v| >= 2 && AgreeOutside(Bits(u), Bits(v), w, n) && w + j >= 8 * |u| - 16
    ensures EndsIn(DataDifference(u, v), j)
  {
    hide Bits;
    BitsSplit(u);
    BitsSplit(v);
    forall i | 0 <= i < 8 * |u| - 16 - j ensures Bits(Data(u))[i] == Bits(Data(v))[i] {
      assert Bits(u)[i] == Bits(v)[i];
    }
  }

  lemma CheckPart(u: seq<byte>, v: seq<byte>, w: nat, n: nat, k: nat)
    requires |u| == |v| >= 2 && AgreeOutside(Bits(u), Bits(v), w, n) && w + n <= 8 * |u| - 16 + k
    ensures StartsIn(CheckDifference(u, v), k)
  {
    hide Bits;
    BitsSplit(u);
    BitsSplit(v);
    var at := 8 * |u| - 16;
    var a, b := Bits(u[|u| - 2..]), Bits(v[|v| - 2..]);
    forall i | k <= i < 16 ensures a[i] == b[i] {
      assert Bits(u)[at + i] == Bits(v)[at + i];
    }
  }

  /** A burst that keeps to one side of the boundary is caught, and its pattern is none of the twelve. */
  lemma OneSided(u: seq<byte>, v: seq<byte>, w: nat)
    requires |u| == |v| && u != v && Accepts(u) && AgreeOutside(Bits(u), Bits(v), w, 16)
    requires Data(u) == Data(v) || u[|u| - 2..] == v[|v| - 2..]
    ensures !Accepts(v) && !Escapes(PayloadError(u, v), CheckError(u, v))
  {
    hide Crc, Bits, Pack, Escapes, AgreeOutside;
    BurstRejected(u, v, w);
    if Data(u) == Data(v) {
      NoDifference(Data(u), Data(v));
    } else {
      NoDifference(u[|u| - 2..], v[|v| - 2..]);
    }
    if Escapes(PayloadError(u, v), CheckError(u, v)) {
      EscapesTouchBoth(PayloadError(u, v), CheckError(u, v));
    }
  }

  /** One that has j bits of payload and the rest in the check. */
  lemma TwoSided(u: seq<byte>, v: seq<byte>, w: nat, n: nat, j: nat)
    requires |u| == |v| >= 2 && AgreeOutside(Bits(u), Bits(v), w, n)
    requires w + j == 8 * |u| - 16 && 0 < j < n <= 16
    ensures EndsIn(DataDifference(u, v), 16)
    ensures Fits(PayloadError(u, v), Mask(j)) && Clear(CheckError(u, v), Mask(16 - n + j))
  {
    hide Bits, AgreeOutside, Fits, Clear, Pack, Mask, StartsIn;
    PayloadPart(u, v, w, n, j);
    PackFits(DataDifference(u, v), j);
    CheckPart(u, v, w, n, n - j);
    PackClear(CheckDifference(u, v), 16 - n + j);
  }

  lemma EitherSide(u: seq<byte>, v: seq<byte>, w: nat, n: nat)
    requires |u| == |v| >= 2 && AgreeOutside(Bits(u), Bits(v), w, n)
    requires w >= 8 * |u| - 16 || w + n <= 8 * |u| - 16
    ensures Data(u) == Data(v) || u[|u| - 2..] == v[|v| - 2..]
  {
    hide Bits, AgreeOutside;
    if w >= 8 * |u| - 16 {
      PayloadPart(u, v, w, n, 0);
      SameBits(Data(u), Data(v));
    } else {
      CheckPart(u, v, w, n, 0);
      SameBits(u[|u| - 2..], v[|v| - 2..]);
    }
  }

  lemma AcrossIff(u: seq<byte>, v: seq<byte>, w: nat)
    requires |u| == |v| && u != v && Accepts(u) && AgreeOutside(Bits(u), Bits(v), w, 16)
    requires w < 8 * |u| - 16 < w + 16
    ensures Accepts(v) <==> Escapes(PayloadError(u, v), CheckError(u, v))
  {
    hide Accepts, Bits, AgreeOutside, Escapes, Swapped, Shift4, Pack, Mask, EndsIn, CheckError;
    var j := 8 * |u| - 16 - w;
    var e, s := PayloadError(u, v), CheckError(u, v);
    TwoSided(u, v, w, 16, j);
    MaskIsLowOnes(j);
    AcceptedAgain(u, v);
    if e == ZERO {
      PackIsZero(DataDifference(u, v));
      SameBits(Data(u), Data(v));
      OneSided(u, v, w);
    } else if Accepts(v) {
      UnnoticedEscapes(e, Mask(j).v);
    } else if Escapes(e, s) {
      EscapesUnnoticed(e, s);
    }
  }

  /**
   Accepted content altered within any 16 consecutive bits is accepted again exactly if the
   flipped bits, before and after the end of the payload, are one of twelve patterns. Payload
   alone or check alone, it never is.
   */
  lemma BurstAcceptedIff(u: seq<byte>, v: seq<byte>, w: nat)
    requires |u| == |v| && u != v && Accepts(u) && AgreeOutside(Bits(u), Bits(v), w, 16)
    ensures Accepts(v) <==> Escapes(PayloadError(u, v), CheckError(u, v))
    ensures Data(u) == Data(v) || u[|u| - 2..] == v[|v| - 2..] ==> !Accepts(v)
  {
    hide Crc, Bits, Escapes, PayloadError, CheckError, AgreeOutside;
    if Data(u) == Data(v) || u[|u| - 2..] == v[|v| - 2..] {
      BurstRejected(u, v, w);
    }
    if w < 8 * |u| - 16 < w + 16 {
      AcrossIff(u, v, w);
    } else {
      EitherSide(u, v, w, 16);
      OneSided(u, v, w);
    }
  }

  lemma MaskFour(n: nat)
    ensures Mask(n + 4) == PushBit(PushBit(PushBit(PushBit(Mask(n), true), true), true), true)
  {
    hide PushBit;
    assert Mask(n + 2) == PushBit(PushBit(Mask(n), true), true);
  }

  /** Within any 12 consecutive bits, every alteration is caught, across the end of the payload too. */
  lemma ShortBurstRejected(u: seq<byte>, v: seq<byte>, w: nat)
    requires |u| == |v| && u != v && Accepts(u) && AgreeOutside(Bits(u), Bits(v), w, 12)
    ensures !Accepts(v)
  {
    hide Crc, CrcWord, Bits, Escapes, Fits, Clear, PayloadError, CheckError, PushBit;
    assert AgreeOutside(Bits(u), Bits(v), w, 16);
    BurstAcceptedIff(u, v, w);
    var j := 8 * |u| - 16 - w;
    if 0 < j < 12 {
      TwoSided(u, v, w, 12, j);
      MaskIsLowOnes(j);
      MaskFour(j);
      EscapesIsLong(PayloadError(u, v), CheckError(u, v), Mask(j));
    } else {
      EitherSide(u, v, w, 12);
      OneSided(u, v, w);
    }
  }

  // ---- thirteen bits are enough to escape ---------------------------------------------

  /** b with its last bit flipped. */
  function FlipLast(b: byte): byte { if b % 2 == 0 then b + 1 else b - 1 }

  lemma FlipPushed(x: Reg, bit: bool) ensures PushBit(x, !bit) == Xor(PushBit(x, bit), Reg(1)) {}

  lemma RaisedLinear(x: Reg, e: Reg) ensures Raised(Xor(x, e)) == Xor(Raised(x), Raised(e)) {}

  lemma FlipLastIs(b: byte)
    ensures Up(FlipLast(b)) == Xor(Up(b), Reg(0x100))
  {
    hide PushBit, Xor;
    FlipPushed(ToReg(b / 2, 7), b % 2 == 1);
    assert FlipLast(b) / 2 == b / 2;
    RaisedLinear(Wide(b), Reg(1));
  }

  lemma {:induction false} ShiftNLinear(a: Reg, b: Reg, n: nat)
    ensures ShiftN(Xor(a, b), n) == Xor(ShiftN(a, n), ShiftN(b, n))
    decreases n
  {
    hide Shift, Xor;
    if n > 0 {
      ShiftNLinear(a, b, n - 1);
      ShiftLinear(ShiftN(a, n - 1), ShiftN(b, n - 1));
    }
  }

  lemma ShiftOfOne()
    ensures ShiftN(Reg(0x100), 8) == POLY
  {
    assert ShiftN(Reg(0x100), 2) == Reg(0x400);
    assert ShiftN(Reg(0x100), 4) == Reg(0x1000);
    assert ShiftN(Reg(0x100), 6) == Reg(0x4000);
  }

  lemma FlipLastStep(c: Reg, b: byte)
    ensures ByteStep(c, FlipLast(b)) == Xor(ByteStep(c, b), POLY)
  {
    hide Shift, Xor, Up, ShiftN;
    FlipLastIs(b);
    XorAssociates(c, Up(b), Reg(0x100));
    ShiftNLinear(Xor(c, Up(b)), Reg(0x100), 8);
    ShiftOfOne();
  }

  lemma TopBitsOfPolyHigh()
    ensures forall i :: 4 <= i < 8 ==> !TopBits(Reg(0x1000), 8)[i]
  {
    assert ShlN(Reg(0x1000), 2) == Reg(0x4000);
    assert ShlN(Reg(0x1000), 4) == ZERO;
    assert ShlN(Reg(0x1000), 6) == ZERO;
  }

  lemma HighHalfOfXor(c: Reg) ensures Raised(HighHalf(Xor(c, POLY))) == Xor(Raised(HighHalf(c)), Reg(0x1000)) {}

  lemma UpOfHigh(c: Reg)
    ensures Up(CrcBytes(c)[1]) == Raised(HighHalf(c))
  {
    hide Wide, Octet, HighHalf, Raised, Fits;
    HalvesFit(c);
    WideOfOctet(HighHalf(c));
  }

  lemma HighOctetKeepsLast(c: Reg)
    ensures forall i :: 4 <= i < 8 ==> BitsOf(CrcBytes(Xor(c, POLY))[1])[i] == BitsOf(CrcBytes(c)[1])[i]
  {
    hide CrcBytes, Up, TopBits, Xor, Raised, HighHalf;
    UpOfHigh(c);
    UpOfHigh(Xor(c, POLY));
    HighHalfOfXor(c);
    TopBitsLinear(Raised(HighHalf(c)), Reg(0x1000), 8);
    TopBitsOfPolyHigh();
  }

  lemma FlipLastBits(b: byte)
    ensures forall i :: 0 <= i < 7 ==> BitsOf(FlipLast(b))[i] == BitsOf(b)[i]
  {
    hide TopBits, Up, FlipLast;
    FlipLastIs(b);
    TopBitsLinear(Up(b), Reg(0x100), 8);
    TopBitsOfFlip();
  }

  lemma BitsOfLast(a: seq<byte>, b: byte)
    ensures Bits(a + [b]) == Bits(a) + BitsOf(b)
  {
    assert (a + [b])[..|a|] == a;
  }

  /** The last payload octet and the check disturbed together. */
  function Disguised(u: seq<byte>): (v: seq<byte>)
    requires |u| >= 3
    ensures |v| == |u|
  {
    u[..|u| - 3] + [FlipLast(u[|u| - 3])] + CrcBytes(Xor(Check(u), POLY))
  }

  lemma DisguisedAccepted(u: seq<byte>)
    requires |u| >= 3 && Accepts(u)
    ensures Accepts(Disguised(u))
  {
    hide Crc, ByteStep, CrcBytes, CrcWord, Xor;
    var n, v := |u|, Disguised(u);
    var pre, b := u[..n - 3], u[n - 3];
    assert Data(u) == pre + [b];
    assert Data(v) == pre + [FlipLast(b)];
    CrcSnoc(pre, b, INIT);
    CrcSnoc(pre, FlipLast(b), INIT);
    FlipLastStep(Crc(pre, INIT), b);
    assert v[n - 2..] == CrcBytes(Xor(Check(u), POLY));
    assert v[n - 2] == v[n - 2..][0] && v[n - 1] == v[n - 2..][1];
    CrcWordOfBytes(Xor(Check(u), POLY));
  }

  lemma BitsOfThree(pre: seq<byte>, a: byte, b: byte, c: byte)
    ensures Bits(pre + [a, b, c]) == Bits(pre) + BitsOf(a) + BitsOf(b) + BitsOf(c)
  {
    hide Bits, BitsOf;
    BitsOfLast(pre, a);
    BitsOfLast(pre + [a], b);
    BitsOfLast(pre + [a] + [b], c);
    assert pre + [a, b, c] == pre + [a] + [b] + [c];
  }

  predicate FirstSeven(a: seq<bool>, b: seq<bool>) { |a| == |b| == 8 && forall i :: 0 <= i < 7 ==> a[i] == b[i] }

  predicate LastFour(a: seq<bool>, b: seq<bool>) { |a| == |b| == 8 && forall i :: 4 <= i < 8 ==> a[i] == b[i] }

  lemma AgreeAround(x: seq<bool>, y: seq<bool>, p: seq<bool>, a: seq<bool>, b: seq<bool>, c: seq<bool>,
                    a': seq<bool>, b': seq<bool>, c': seq<bool>, w: nat)
    requires w == |p| + 7
    requires |b| == |b'| == 8 && FirstSeven(a, a') && LastFour(c, c')
    requires x == p + a + b + c && y == p + a' + b' + c'
    ensures AgreeOutside(x, y, w, 13)
  {
  }

  lemma BitsOfTail(pre: seq<byte>, b: byte, check: seq<byte>)
    requires |check| == 2
    ensures Bits(pre + [b] + check) == Bits(pre) + BitsOf(b) + BitsOf(check[0]) + BitsOf(check[1])
  {
    hide Bits, BitsOf;
    assert pre + [b] + check == pre + [b, check[0], check[1]];
    BitsOfThree(pre, b, check[0], check[1]);
  }

  lemma TailWindow(pre: seq<byte>, b: byte, b': byte, c: seq<byte>, c': seq<byte>)
    requires |c| == |c'| == 2 && LastFour(BitsOf(c[1]), BitsOf(c'[1])) && FirstSeven(BitsOf(b), BitsOf(b'))
    ensures AgreeOutside(Bits(pre + [b] + c), Bits(pre + [b'] + c'), 8 * |pre| + 7, 13)
  {
    hide *;
    var x, y := Bits(pre + [b] + c), Bits(pre + [b'] + c');
    assert x == Bits(pre) + BitsOf(b) + BitsOf(c[0]) + BitsOf(c[1]) by { BitsOfTail(pre, b, c); }
    assert y == Bits(pre) + BitsOf(b') + BitsOf(c'[0]) + BitsOf(c'[1]) by { BitsOfTail(pre, b', c'); }
    AgreeAround(x, y, Bits(pre), BitsOf(b), BitsOf(c[0]), BitsOf(c[1]), BitsOf(b'), BitsOf(c'[0]), BitsOf(c'[1]),
                8 * |pre| + 7);
  }

  lemma StraddleWindow(u: seq<byte>, v: seq<byte>, pre: seq<byte>, b: byte, check: Reg, w: nat)
    requires u == pre + [b] + CrcBytes(check) && v == pre + [FlipLast(b)] + CrcBytes(Xor(check, POLY))
    requires w == 8 * |pre| + 7
    ensures AgreeOutside(Bits(u), Bits(v), w, 13)
  {
    hide CrcBytes, Xor, BitsOf, Bits, AgreeOutside, FlipLast;
    FlipLastBits(b);
    HighOctetKeepsLast(check);
    TailWindow(pre, b, FlipLast(b), CrcBytes(check), CrcBytes(Xor(check, POLY)));
  }

  lemma DisguisedParts(u: seq<byte>)
    requires |u| >= 3
    ensures Disguised(u) != u && u == u[..|u| - 3] + [u[|u| - 3]] + CrcBytes(Check(u))
    ensures Disguised(u) == u[..|u| - 3] + [FlipLast(u[|u| - 3])] + CrcBytes(Xor(Check(u), POLY))
  {
    hide CrcBytes, CrcWord, Xor;
    var n := |u|;
    assert Disguised(u)[n - 3] != u[n - 3];
    CrcBytesOfWord(u[n - 2], u[n - 1]);
  }

  lemma DisguisedAgrees(u: seq<byte>)
    requires |u| >= 3
    ensures AgreeOutside(Bits(u), Bits(Disguised(u)), 8 * |u| - 17, 13)
  {
    hide *;
    DisguisedParts(u);
    var n := |u|;
    StraddleWindow(u, Disguised(u), u[..n - 3], u[n - 3], Check(u), 8 * n - 17);
  }

  /**
   Twelve is the most: all accepted content with a payload has an accepted neighbour that differs
   from it within 13 consecutive bits, the last of the payload and the first 12 of the check.
   */
  lemma StraddlingBurstAccepted(u: seq<byte>)
    requires |u| >= 3 && Accepts(u)
    ensures Accepts(Disguised(u)) && Disguised(u) != u
    ensures AgreeOutside(Bits(u), Bits(Disguised(u)), 8 * |u| - 17, 13)
  {
    hide *;
    DisguisedAccepted(u);
    DisguisedParts(u);
    DisguisedAgrees(u);
  }
}
