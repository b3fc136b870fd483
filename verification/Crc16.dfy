/**
 The frame check sequence of the serial link: an MSB-first CRC-16 with polynomial
 0x1021, initial value 0xFFFF and no final complement.
 */
module Crc16 {
  import opened Bytes

  /** The uint16_t register. */
  datatype Reg = Reg(v: bv16)

  const INIT := Reg(0xFFFF)

  // ---- octets in and out of the register -------------------------------------------

  /** x with one more bit at the low end. */
  function PushBit(x: Reg, bit: bool): Reg { Reg((x.v << 1) | (if bit then 1 else 0)) }

  function PopBit(x: Reg): Reg { Reg(x.v >> 1) }

  predicate LastBit(x: Reg) { x.v & 1 == 1 }

  predicate Top(x: Reg) { x.v & 0x8000 != 0 }

  function And(x: Reg, m: Reg): Reg { Reg(x.v & m.v) }

  /** x has bits only where m has. */
  predicate Fits(x: Reg, m: Reg) { x.v & !m.v == 0 }

  const BYTE := Reg(0xFF)

  /** n one bits. */
  function Mask(n: nat): Reg { if n == 0 then Reg(0) else PushBit(Mask(n - 1), true) }

  /** The low n bits of the binary representation of v. */
  function ToReg(v: nat, n: nat): Reg { if n == 0 then Reg(0) else PushBit(ToReg(v / 2, n - 1), v % 2 == 1) }

  /** The number the low n bits of r represent. */
  function FromReg(r: Reg, n: nat): (v: nat)
    ensures v < Pow2(n)
    decreases n, r
  {
    if n == 0 then 0 else 2 * FromReg(PopBit(r), n - 1) + (if LastBit(r) then 1 else 0)
  }

  /** The octet as a register value: the promotion of a uint8_t. */
  function Wide(b: byte): Reg { ToReg(b, 8) }

  /** (uint8_t) r */
  function Octet(r: Reg): byte {
    assert Pow2(8) == 0x100;
    FromReg(r, 8)
  }

  // One fact of bit-vector arithmetic each.

  lemma PopPush(x: Reg, bit: bool)
    requires !Top(x)
    ensures PopBit(PushBit(x, bit)) == x
  {
  }

  lemma LastPush(x: Reg, bit: bool) ensures LastBit(PushBit(x, bit)) == bit {}

  lemma PushMask(r: Reg, m: Reg) ensures PushBit(And(PopBit(r), m), LastBit(r)) == And(r, PushBit(m, true)) {}

  lemma AndNothing(r: Reg) ensures And(r, Reg(0)) == Reg(0) {}

  lemma FitsNothing(m: Reg) ensures Fits(Reg(0), m) {}

  lemma FitsPush(x: Reg, bit: bool, m: Reg)
    requires Fits(x, m)
    ensures Fits(PushBit(x, bit), PushBit(m, true))
  {
  }

  lemma FitsNoTop(x: Reg, m: Reg)
    requires Fits(x, m) && !Top(m)
    ensures !Top(x)
  {
  }

  lemma FitsAnd(x: Reg, m: Reg)
    requires Fits(x, m)
    ensures And(x, m) == x
  {
  }

  lemma Masks()
    ensures Mask(8) == BYTE
  {
    assert Mask(3) == Reg(7);
    assert Mask(6) == Reg(0x3F);
  }

  lemma MaskIsLow(n: nat)
    requires n <= 15
    ensures !Top(Mask(n))
  {
    assert Mask(3) == Reg(7);
    assert Mask(6) == Reg(0x3F);
    assert Mask(9) == Reg(0x1FF);
    assert Mask(12) == Reg(0xFFF);
  }

  // ---- widening and narrowing are inverse ----------------------------------------------

  lemma {:induction false} ToRegFits(v: nat, n: nat)
    ensures Fits(ToReg(v, n), Mask(n))
  {
    hide Fits, PushBit;
    if n > 0 {
      ToRegFits(v / 2, n - 1);
      FitsPush(ToReg(v / 2, n - 1), v % 2 == 1, Mask(n - 1));
    } else {
      FitsNothing(Mask(0));
    }
  }

  /** Widening loses nothing. */
  lemma {:induction false} FromTo(v: nat, n: nat)
    requires n <= 16 && v < Pow2(n)
    ensures FromReg(ToReg(v, n), n) == v
  {
    hide PushBit, PopBit, LastBit, Fits, Top;
    if n > 0 {
      var x := ToReg(v / 2, n - 1);
      FromTo(v / 2, n - 1);
      ToRegFits(v / 2, n - 1);
      MaskIsLow(n - 1);
      FitsNoTop(x, Mask(n - 1));
      PopPush(x, v % 2 == 1);
      LastPush(x, v % 2 == 1);
    }
  }

  /** And the low bits of a register are recovered from its value. */
  lemma {:induction false} ToFrom(r: Reg, n: nat)
    ensures ToReg(FromReg(r, n), n) == And(r, Mask(n))
    decreases n
  {
    hide PushBit, PopBit, LastBit, And;
    if n > 0 {
      ToFrom(PopBit(r), n - 1);
      PushMask(r, Mask(n - 1));
      assert FromReg(r, n) / 2 == FromReg(PopBit(r), n - 1);
    } else {
      AndNothing(r);
    }
  }

  lemma WideFits(b: byte)
    ensures Fits(Wide(b), BYTE)
  {
    hide Fits, PushBit;
    Masks();
    ToRegFits(b, 8);
  }

  /** Octet and Wide are inverse on octets and on registers that fit one. */
  lemma OctetOfWide(b: byte)
    ensures Octet(Wide(b)) == b
  {
    hide PushBit, PopBit, LastBit;
    assert Pow2(8) == 0x100;
    FromTo(b, 8);
  }

  lemma WideOfOctet(r: Reg)
    requires Fits(r, BYTE)
    ensures Wide(Octet(r)) == r
  {
    hide Fits, PushBit, PopBit, LastBit, And;
    Masks();
    FitsAnd(r, BYTE);
    ToFrom(r, 8);
  }

  // ---- the register at work --------------------------------------------------------

  function Xor(a: Reg, b: Reg): Reg { Reg(a.v ^ b.v) }

  function Shl(a: Reg): Reg { Reg(a.v << 1) }

  /** One turn of the inner loop. */
  function Shift(crc: Reg): Reg { if crc.v & 0x8000 != 0 then Reg((crc.v << 1) ^ 0x1021) else Reg(crc.v << 1) }

  function ShiftN(crc: Reg, n: nat): Reg { if n == 0 then crc else Shift(ShiftN(crc, n - 1)) }

  /** data[i] << 8 */
  function Up(b: byte): Reg { Raised(Wide(b)) }

  function Raised(x: Reg): Reg { Reg(x.v << 8) }

  function ByteStep(crc: Reg, b: byte): Reg { ShiftN(Xor(crc, Up(b)), 8) }

  /** The register after all of data. */
  function Crc(data: seq<byte>, init: Reg): Reg {
    if data == [] then init else ByteStep(Crc(data[..|data| - 1], init), data[|data| - 1])
  }

  method Crc16Ccitt(data: seq<byte>, init: bv16) returns (crc: bv16)
    ensures Reg(crc) == Crc(data, Reg(init))
  {
    hide Shift, Xor, Up;
    crc := init;
    for i := 0 to |data|
      invariant Reg(crc) == Crc(data[..i], Reg(init))
    {
      ghost var start := Xor(Reg(crc), Up(data[i]));
      XorUp(crc, data[i]);
      crc := crc ^ (Wide(data[i]).v << 8);
      for b := 0 to 8
        invariant Reg(crc) == ShiftN(start, b)
      {
        if crc & 0x8000 != 0 {
          TurnHigh(crc);
          crc := (crc << 1) ^ 0x1021;
        } else {
          TurnLow(crc);
          crc := crc << 1;
        }
      }
      CrcSnoc(data[..i], data[i], Reg(init));
      assert data[..i + 1] == data[..i] + [data[i]];
    }
    assert data[..|data|] == data;
  }

  lemma XorUp(crc: bv16, b: byte)
    ensures Reg(crc ^ (Wide(b).v << 8)) == Xor(Reg(crc), Up(b))
  {
  }

  lemma TurnHigh(crc: bv16)
    requires crc & 0x8000 != 0
    ensures Shift(Reg(crc)) == Reg((crc << 1) ^ 0x1021)
  {
  }

  lemma TurnLow(crc: bv16)
    requires crc & 0x8000 == 0
    ensures Shift(Reg(crc)) == Reg(crc << 1)
  {
  }

  lemma CrcSnoc(data: seq<byte>, b: byte, init: Reg)
    ensures Crc(data + [b], init) == ByteStep(Crc(data, init), b)
  {
    assert (data + [b])[..|data|] == data;
  }

  /** The check of a concatenation is the check of the second part continued from the first. */
  lemma {:induction false} CrcConcat(a: seq<byte>, b: seq<byte>, init: Reg)
    ensures Crc(a + b, init) == Crc(b, Crc(a, init))
  {
    if b == [] {
      assert a + b == a;
    } else {
      var k := |b| - 1;
      assert (a + b)[..|a| + k] == a + b[..k];
      CrcConcat(a, b[..k], init);
    }
  }

  // ---- the two octets that carry the register --------------------------------------

  function LowHalf(x: Reg): Reg { Reg(x.v & 0xFF) }

  function HighHalf(x: Reg): Reg { Reg(x.v >> 8) }

  /** (hi << 8) | lo */
  function Joined(lo: Reg, hi: Reg): Reg { Reg((hi.v << 8) | lo.v) }

  /** The octets of the register in the order they are sent. */
  function CrcBytes(crc: Reg): (bs: seq<byte>)
    ensures |bs| == 2
  {
    [Octet(LowHalf(crc)), Octet(HighHalf(crc))]
  }

  function CrcWord(lo: byte, hi: byte): Reg { Joined(Wide(lo), Wide(hi)) }

  lemma HalvesFit(c: Reg) ensures Fits(LowHalf(c), BYTE) && Fits(HighHalf(c), BYTE) {}

  lemma JoinHalves(c: Reg) ensures Joined(LowHalf(c), HighHalf(c)) == c {}

  lemma SplitJoined(lo: Reg, hi: Reg)
    requires Fits(lo, BYTE) && Fits(hi, BYTE)
    ensures LowHalf(Joined(lo, hi)) == lo && HighHalf(Joined(lo, hi)) == hi
  {
  }

  /** The receiver reassembles the register the sender split. */
  lemma CrcWordOfBytes(crc: Reg)
    ensures CrcWord(CrcBytes(crc)[0], CrcBytes(crc)[1]) == crc
  {
    hide Wide, Octet, LowHalf, HighHalf, Joined, Fits;
    HalvesFit(crc);
    WideOfOctet(LowHalf(crc));
    WideOfOctet(HighHalf(crc));
    JoinHalves(crc);
  }

  lemma CrcBytesOfWord(lo: byte, hi: byte)
    ensures CrcBytes(CrcWord(lo, hi)) == [lo, hi]
  {
    hide Wide, Octet, LowHalf, HighHalf, Joined, Fits;
    WideFits(lo);
    WideFits(hi);
    SplitJoined(Wide(lo), Wide(hi));
    OctetOfWide(lo);
    OctetOfWide(hi);
  }

  /** What hdlcDecode accepts once the escapes are gone. */
  predicate Accepts(u: seq<byte>) {
    |u| >= 2 && Crc(u[..|u| - 2], INIT) == CrcWord(u[|u| - 2], u[|u| - 1])
  }

  /** The accepted sequences are exactly the payloads followed by their own check octets. */
  lemma AcceptsIff(u: seq<byte>)
    ensures Accepts(u) <==> |u| >= 2 && u == u[..|u| - 2] + CrcBytes(Crc(u[..|u| - 2], INIT))
  {
    if |u| >= 2 {
      var lo, hi := u[|u| - 2], u[|u| - 1];
      var crc := Crc(u[..|u| - 2], INIT);
      assert u == u[..|u| - 2] + [lo, hi];
      CrcWordOfBytes(crc);
      CrcBytesOfWord(lo, hi);
      if u == u[..|u| - 2] + CrcBytes(crc) {
        assert CrcBytes(crc)[0] == lo && CrcBytes(crc)[1] == hi;
      }
    }
  }
}
