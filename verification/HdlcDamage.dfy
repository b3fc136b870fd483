/**
 Damage on the line, after stuffing. The decoder unescapes before it checks, so what the check is
 worth depends on whether the damage leaves the escapes alone: then unescaping keeps every flipped
 bit and brings the flipped bits no further apart.
 */
module HdlcDamage {
  import opened Bytes
  import opened Crc16
  import opened CrcBits
  import opened CrcBursts
  import opened CrcDetection
  import opened CrcDistance
  import opened CrcOrder
  import opened Deframer
  import opened Hdlc

  /** c and d have one length, and the decoder takes the same of their octets for escapes. */
  predicate SameEscapes(c: seq<byte>, d: seq<byte>) {
    |c| == |d| &&
    forall i :: 0 <= i < |c| && !Unstuff(c[..i]).escaping ==> (c[i] == ESCAPE <==> d[i] == ESCAPE)
  }

  lemma SameEscapesPrefix(c: seq<byte>, d: seq<byte>)
    requires c != [] && SameEscapes(c, d)
    ensures SameEscapes(c[..|c| - 1], d[..|d| - 1])
  {
    hide Unstuff;
    var k := |c| - 1;
    forall i | 0 <= i < k && !Unstuff(c[..k][..i]).escaping
      ensures c[..k][i] == ESCAPE <==> d[..k][i] == ESCAPE
    {
      assert c[..k][..i] == c[..i];
    }
  }

  // ---- unescaping one octet ------------------------------------------------------------

  lemma HalfApart(v: nat, v': nat, e: int)
    requires v' - v == 2 * e
    ensures v' % 2 == v % 2 && v' / 2 - v / 2 == e
  {
  }

  lemma FlippedFive(b: byte)
    ensures FlippedAt(b, Flip20(b), 5)
  {
    var f := Flip20(b);
    var b1, f1 := b / 2, f / 2;
    var b2, f2 := b1 / 2, f1 / 2;
    var b3, f3 := b2 / 2, f2 / 2;
    var b4, f4 := b3 / 2, f3 / 2;
    var up := f - b;
    assert up == 32 || up == -32;
    HalfApart(b, f, up / 2);
    HalfApart(b1, f1, up / 4);
    HalfApart(b2, f2, up / 8);
    HalfApart(b3, f3, up / 16);
    HalfApart(b4, f4, up / 32);
    FiveHalves(b);
    assert FlippedAt(b4 / 2, f4 / 2, 0);
    assert FlippedAt(b3, f3, 2);
    assert FlippedAt(b1, f1, 4);
  }

  lemma FiveHalves(b: nat) ensures b / 2 / 2 / 2 / 2 / 2 == b / 32 {}

  lemma FiveUp()
    ensures Raised(ShlN(ONE, 5)) == Reg(0x2000)
  {
    assert ShlN(ONE, 3) == Reg(8);
  }

  lemma UpOfFlip(b: byte)
    ensures Up(Flip20(b)) == Xor(Up(b), Reg(0x2000))
  {
    hide Up, Xor, Flip20, FlippedAt;
    FlippedFive(b);
    UpFlipped(b, Flip20(b), 5);
    FiveUp();
  }

  /** Unescaping two octets changes the same bit of both. */
  lemma FlipKeepsDifference(x: byte, y: byte)
    ensures OctetDifference(Flip20(x), Flip20(y)) == OctetDifference(x, y)
  {
    hide TopBits, Xor, Up, Flip20;
    UpOfFlip(x);
    UpOfFlip(y);
    TopBitsLinear(Up(x), Reg(0x2000), 8);
    TopBitsLinear(Up(y), Reg(0x2000), 8);
  }

  // ---- how many bits are flipped -------------------------------------------------------

  /** With the escapes left alone, unescaping keeps the length and the number of flipped bits. */
  lemma {:induction false} UnstuffKeepsFlips(c: seq<byte>, d: seq<byte>)
    requires SameEscapes(c, d)
    ensures Unstuff(c).escaping == Unstuff(d).escaping && |Unstuff(c).out| == |Unstuff(d).out|
    ensures Flips(Unstuff(c).out, Unstuff(d).out) == Flips(c, d)
  {
    hide Flips, OctetDifference, Ones, Flip20;
    if c != [] {
      var k := |c| - 1;
      SameEscapesPrefix(c, d);
      UnstuffKeepsFlips(c[..k], d[..k]);
      assert c == c[..k] + [c[k]] && d == d[..k] + [d[k]];
      FlipsSnoc(c[..k], d[..k], c[k], d[k]);
      var p, q := Unstuff(c[..k]), Unstuff(d[..k]);
      if p.escaping {
        FlipsSnoc(p.out, q.out, Flip20(c[k]), Flip20(d[k]));
        FlipKeepsDifference(c[k], d[k]);
      } else if c[k] == ESCAPE {
        OneOctet(ESCAPE);
      } else {
        FlipsSnoc(p.out, q.out, c[k], d[k]);
      }
    } else {
      FlipsIsZero([], []);
    }
  }

  // ---- how far apart they are ----------------------------------------------------------

  /** The positions of the octets that unescaping keeps. */
  function Kept(c: seq<byte>): (ks: seq<nat>)
    ensures |ks| == |Unstuff(c).out|
  {
    if c == [] then []
    else
      var k := |c| - 1;
      if Unstuff(c[..k]).escaping || c[k] != ESCAPE then Kept(c[..k]) + [k] else Kept(c[..k])
  }

  lemma {:induction false} KeptApart(c: seq<byte>, i: nat, j: nat)
    requires i <= j < |Kept(c)|
    ensures Kept(c)[j] < |c| && Kept(c)[j] - Kept(c)[i] >= j - i
  {
    hide UnstuffStep;
    var k := |c| - 1;
    if j < |Kept(c[..k])| {
      KeptApart(c[..k], i, j);
    } else if i < j {
      KeptApart(c[..k], i, j - 1);
    }
  }

  lemma {:induction false} KeptDifference(c: seq<byte>, d: seq<byte>, j: nat)
    requires SameEscapes(c, d) && j < |Kept(c)|
    ensures |Unstuff(d).out| == |Kept(c)| && Kept(c)[j] < |c|
    ensures OctetDifference(Unstuff(c).out[j], Unstuff(d).out[j]) == OctetDifference(c[Kept(c)[j]], d[Kept(c)[j]])
  {
    hide OctetDifference, Flip20, Flips;
    var k := |c| - 1;
    UnstuffKeepsFlips(c, d);
    SameEscapesPrefix(c, d);
    UnstuffKeepsFlips(c[..k], d[..k]);
    if j < |Kept(c[..k])| {
      KeptDifference(c[..k], d[..k], j);
    } else {
      FlipKeepsDifference(c[k], d[k]);
    }
  }

  lemma BitMoves(c: seq<byte>, d: seq<byte>, g: nat)
    requires SameEscapes(c, d) && g < 8 * |Kept(c)|
    ensures |Unstuff(d).out| == |Kept(c)| && Kept(c)[g / 8] < |c|
    ensures Difference(Bits(Unstuff(c).out), Bits(Unstuff(d).out))[g] ==
            Difference(Bits(c), Bits(d))[8 * Kept(c)[g / 8] + g % 8]
  {
    hide OctetDifference, Bits, Unstuff, Kept, Difference, SameEscapes;
    var j, b := g / 8, g % 8;
    KeptDifference(c, d, j);
    DifferenceAt(Unstuff(c).out, Unstuff(d).out, j, b);
    assert |c| == |d| by { SameLength(c, d); }
    DifferenceAt(c, d, Kept(c)[j], b);
  }

  lemma SameLength(c: seq<byte>, d: seq<byte>)
    requires SameEscapes(c, d)
    ensures |c| == |d|
  {
  }

  /** Flipped bits that lay within n consecutive ones still do. */
  lemma WindowKept(c: seq<byte>, d: seq<byte>, w: nat, n: nat) returns (w': nat)
    requires SameEscapes(c, d) && AgreeOutside(Bits(c), Bits(d), w, n)
    ensures |Unstuff(c).out| == |Unstuff(d).out|
    ensures AgreeOutside(Bits(Unstuff(c).out), Bits(Unstuff(d).out), w', n)
  {
    hide Bits, Unstuff, Kept, SameEscapes, Flips;
    UnstuffKeepsFlips(c, d);
    SameLength(c, d);
    var e := Difference(Bits(Unstuff(c).out), Bits(Unstuff(d).out));
    if forall i :: 0 <= i < |e| ==> !e[i] {
      return 0;
    }
    w' := FindFirst(e);
    forall g | 0 <= g < |e| && e[g] ensures g < w' + n {
      BitMoves(c, d, w');
      BitMoves(c, d, g);
      KeptApart(c, w' / 8, g / 8);
    }
  }

  // ---- what the decoder makes of it ----------------------------------------------------

  lemma ContentOf(data: seq<byte>, d: seq<byte>)
    requires SameEscapes(Stuff(Sealed(data)), d)
    ensures |Unstuff(d).out| == |Sealed(data)|
    ensures Flips(Sealed(data), Unstuff(d).out) == Flips(Stuff(Sealed(data)), d)
    ensures d != Stuff(Sealed(data)) ==> Unstuff(d).out != Sealed(data)
  {
    hide Stuff, Unstuff, SameEscapes, Flips, Sealed;
    var c := Stuff(Sealed(data));
    UnstuffStuff(Sealed(data));
    UnstuffKeepsFlips(c, d);
    SameLength(c, d);
    FlipsIsZero(c, d);
    FlipsIsZero(Sealed(data), Unstuff(d).out);
  }

  /** An odd number of bits flipped on the line, none of them in or into an escape, is refused. */
  lemma OddFlipsRefused(data: seq<byte>, d: seq<byte>)
    requires SameEscapes(Stuff(Sealed(data)), d) && Flips(Stuff(Sealed(data)), d) % 2 == 1
    ensures Decode(d) == None
  {
    hide Stuff, Unstuff, SameEscapes, Ones, Sealed, Decode, Bits;
    ContentOf(data, d);
    DecodeRejectsOddFlips(data, d);
  }

  lemma FewFlipsCaught(data: seq<byte>, v: seq<byte>)
    requires |v| == |Sealed(data)| && |data| <= 4093 && 1 <= Flips(Sealed(data), v) <= 3
    ensures !Accepts(v)
  {
    hide Crc, CrcBytes, Flips, Accepts;
    SealedAccepted(data);
    FewFlipsRejected(Sealed(data), v);
  }

  /** So are up to three for payloads of at most 4093 octets. */
  lemma FewFlipsRefused(data: seq<byte>, d: seq<byte>)
    requires |data| <= 4093
    requires SameEscapes(Stuff(Sealed(data)), d) && 1 <= Flips(Stuff(Sealed(data)), d) <= 3
    ensures Decode(d) == None
  {
    hide Stuff, Unstuff, SameEscapes, Flips, Sealed, Accepts;
    ContentOf(data, d);
    FewFlipsCaught(data, Unstuff(d).out);
  }

  lemma ContentWindow(data: seq<byte>, d: seq<byte>, w: nat, n: nat) returns (w': nat)
    requires SameEscapes(Stuff(Sealed(data)), d) && AgreeOutside(Bits(Stuff(Sealed(data))), Bits(d), w, n)
    ensures AgreeOutside(Bits(Sealed(data)), Bits(Unstuff(d).out), w', n)
  {
    hide Stuff, Unstuff, SameEscapes, Sealed, Bits, AgreeOutside;
    UnstuffStuff(Sealed(data));
    w' := WindowKept(Stuff(Sealed(data)), d, w, n);
  }

  /** So is any damage within 12 consecutive bits of the line. */
  lemma ShortBurstRefused(data: seq<byte>, d: seq<byte>, w: nat)
    requires SameEscapes(Stuff(Sealed(data)), d) && d != Stuff(Sealed(data))
    requires AgreeOutside(Bits(Stuff(Sealed(data))), Bits(d), w, 12)
    ensures Decode(d) == None
  {
    hide Stuff, Unstuff, SameEscapes, Sealed, Bits, AgreeOutside, Flips, Decode;
    ContentOf(data, d);
    var w' := ContentWindow(data, d, w, 12);
    DecodeRejectsShortBurst(data, d, w');
  }

  /** Damage within 16 goes through exactly if its content is off by one of the twelve patterns. */
  lemma BurstDecodesIff(data: seq<byte>, d: seq<byte>, w: nat)
    requires SameEscapes(Stuff(Sealed(data)), d) && d != Stuff(Sealed(data))
    requires AgreeOutside(Bits(Stuff(Sealed(data))), Bits(d), w, 16)
    ensures var u, v := Sealed(data), Unstuff(d).out;
            |v| == |u| && (Decode(d).Some? <==> Escapes(PayloadError(u, v), CheckError(u, v)))
  {
    hide Stuff, Unstuff, SameEscapes, Sealed, Bits, AgreeOutside, Flips, Decode, Escapes, PayloadError, CheckError;
    ContentOf(data, d);
    SealedNotShort(data);
    var w' := ContentWindow(data, d, w, 16);
    DecodesBurstIff(data, d, w');
  }

  lemma SealedNotShort(data: seq<byte>) ensures |Sealed(data)| == |data| + 2 {}

  /**
   A body without a flag that does not decode leaves no trace in the receive loop, and the next frame
   finds it ready.
   */
  lemma RefusedLeavesNothing(noise: seq<byte>, d: seq<byte>)
    requires FLAG !in d && Decode(d) == None
    ensures var p := Run(Outside(noise), [FLAG] + d + [FLAG]); Payloads(p.bodies) == [] && p.link == START
  {
    hide Run, Decode;
    RunPair(noise, d);
    PayloadsOne(d);
  }

  // ---- what damage to the escapes can do -----------------------------------------------

  const SENT: seq<byte> := [0x18, 0x19, 0x5D]

  const ON_THE_LINE: seq<byte> := [0x18, 0x19, 0x5D, 0xED, 0x14]

  const HEARD: seq<byte> := [0x18, 0x19, 0x7D, 0xED, 0x14]

  lemma PayloadOctets() ensures Wide(0x18) == Reg(0x18) && Wide(0x19) == Reg(0x19) && Wide(0x5D) == Reg(0x5D) {}

  lemma LowOctets() ensures Wide(0xED) == Reg(0xED) && Wide(0xCD) == Reg(0xCD) {}

  lemma HighOctet() ensures Wide(0x14) == Reg(0x14) {}

  lemma OctetsRaised()
    ensures Raised(Reg(0x18)) == Reg(0x1800) && Raised(Reg(0x19)) == Reg(0x1900) && Raised(Reg(0x5D)) == Reg(0x5D00)
  {
  }

  lemma OctetsJoined()
    ensures Joined(Reg(0xED), Reg(0x14)) == Reg(0x14ED) && Joined(Reg(0xCD), Reg(0x14)) == Reg(0x14CD)
  {
  }

  lemma Turned()
    ensures Shift4(Shift4(Xor(INIT, Reg(0x1800)))) == Reg(0x72C9)
    ensures Shift4(Shift4(Xor(Reg(0x72C9), Reg(0x1900)))) == Reg(0x14CD)
    ensures Shift4(Shift4(Xor(Reg(0x14CD), Reg(0x5D00)))) == Reg(0x14ED)
  {
  }

  lemma ByteStepIs(c: Reg, b: byte)
    ensures ByteStep(c, b) == Shift4(Shift4(Xor(c, Up(b))))
  {
    hide Shift, Xor, Up, Shift4;
    ShiftNFour(Xor(c, Up(b)), 0);
    ShiftNFour(Xor(c, Up(b)), 4);
  }

  lemma StepsOfSent()
    ensures ByteStep(INIT, 0x18) == Reg(0x72C9)
    ensures ByteStep(Reg(0x72C9), 0x19) == Reg(0x14CD)
    ensures ByteStep(Reg(0x14CD), 0x5D) == Reg(0x14ED)
  {
    hide Shift, Xor, Wide, Raised, Shift4, ByteStep;
    PayloadOctets();
    OctetsRaised();
    Turned();
    ByteStepIs(INIT, 0x18);
    ByteStepIs(Reg(0x72C9), 0x19);
    ByteStepIs(Reg(0x14CD), 0x5D);
  }

  lemma CheckWords()
    ensures CrcWord(0xED, 0x14) == Reg(0x14ED) && CrcWord(0xCD, 0x14) == Reg(0x14CD)
  {
    hide Wide, Joined;
    LowOctets();
    HighOctet();
    OctetsJoined();
  }

  lemma CrcOfSent()
    ensures Crc(SENT, INIT) == Reg(0x14ED) && Crc(SENT[..2], INIT) == Reg(0x14CD)
  {
    hide ByteStep;
    StepsOfSent();
    CrcSnoc([], 0x18, INIT);
    CrcSnoc([0x18], 0x19, INIT);
    CrcSnoc([0x18, 0x19], 0x5D, INIT);
    assert [] + [0x18] == [0x18] && [0x18] + [0x19] == [0x18, 0x19] && [0x18, 0x19] + [0x5D] == SENT;
    assert SENT[..2] == [0x18, 0x19];
  }

  lemma {:induction false} NoEscapes(s: seq<byte>)
    requires FLAG !in s && ESCAPE !in s
    ensures Stuff(s) == s && Unstuff(s) == Unstuffed(s, false)
  {
    hide Escaped, UnstuffStep;
    if s != [] {
      var k := |s| - 1;
      NoEscapes(s[..k]);
      EscapedIs(s[k]);
      PlainStep(s[..k], s[k]);
      assert s == s[..k] + [s[k]];
    }
  }

  lemma SentIs()
    ensures Stuff(Sealed(SENT)) == ON_THE_LINE
  {
    hide Crc, CrcBytes, CrcWord, Stuff;
    CrcOfSent();
    CheckWords();
    CrcBytesOfWord(0xED, 0x14);
    assert Sealed(SENT) == ON_THE_LINE;
    NoEscapes(ON_THE_LINE);
  }

  lemma HeardIs()
    ensures Decode(HEARD) == Some(SENT[..2])
  {
    hide Crc, CrcWord, UnstuffStep, Unstuff;
    var content: seq<byte> := [0x18, 0x19, 0xCD, 0x14];
    NoEscapes(HEARD[..2]);
    UnstuffSnoc(HEARD[..2], ESCAPE);
    UnstuffSnoc(HEARD[..3], 0xED);
    UnstuffSnoc(HEARD[..4], 0x14);
    assert HEARD[..2] + [ESCAPE] == HEARD[..3] && HEARD[..3] + [0xED] == HEARD[..4] && HEARD[..4] + [0x14] == HEARD;
    EscapeStep(HEARD[..2], 0xED);
    PlainStep(HEARD[..2] + [0xCD], 0x14);
    assert HEARD[..2] + [0xCD] + [0x14] == content;
    CrcOfSent();
    CheckWords();
    assert content[..2] == SENT[..2];
  }

  lemma EscapeStep(out: seq<byte>, b: byte)
    ensures UnstuffStep(UnstuffStep(Unstuffed(out, false), ESCAPE), b) == Unstuffed(out + [Flip20(b)], false)
  {
  }

  lemma PlainStep(out: seq<byte>, b: byte)
    requires b != ESCAPE
    ensures UnstuffStep(Unstuffed(out, false), b) == Unstuffed(out + [b], false)
  {
  }

  lemma TopBitsOfFlip20()
    ensures TopBits(Reg(0x2000), 8) == Unit(8, 2)
  {
    assert ShlN(Reg(0x2000), 2) == Reg(0x8000);
    assert ShlN(Reg(0x2000), 4) == ZERO;
    assert ShlN(Reg(0x2000), 6) == ZERO;
  }

  lemma OneBitOfOctet(b: byte)
    ensures Ones(OctetDifference(b, Flip20(b))) == 1
  {
    hide TopBits, Xor, Up, Flip20, Ones;
    UpOfFlip(b);
    TopBitsLinear(Up(b), Reg(0x2000), 8);
    TopBitsOfFlip20();
    UndoDifference(BitsOf(b), TopBits(Reg(0x2000), 8));
    OnesOfUnit(8, 2);
  }

  lemma OneFlip()
    ensures Flips(ON_THE_LINE, HEARD) == 1
  {
    hide Flips, OctetDifference, Ones;
    var x, y := ON_THE_LINE[..2], HEARD[..2];
    FlipsIsZero(x, y);
    FlipsSnoc(x, y, 0x5D, 0x7D);
    OneBitOfOctet(0x5D);
    FlipsSnoc(x + [0x5D], y + [0x7D], 0xED, 0xED);
    OneOctet(0xED);
    FlipsSnoc(x + [0x5D] + [0xED], y + [0x7D] + [0xED], 0x14, 0x14);
    OneOctet(0x14);
    assert ON_THE_LINE == x + [0x5D] + [0xED] + [0x14] && HEARD == y + [0x7D] + [0xED] + [0x14];
  }

  /**
   The escapes have to be left alone: one bit flipped on the line can turn an octet into an escape,
   and the body can decode all the same, to something else.
   */
  lemma OneFlipDecodes()
    ensures Stuff(Sealed(SENT)) == ON_THE_LINE && Flips(ON_THE_LINE, HEARD) == 1
    ensures !SameEscapes(ON_THE_LINE, HEARD)
    ensures Decode(HEARD) == Some([0x18, 0x19])
  {
    hide Stuff, Unstuff, Sealed, Flips, Decode;
    SentIs();
    HeardIs();
    OneFlip();
    NoEscapes(ON_THE_LINE[..2]);
    assert !Unstuff(ON_THE_LINE[..2]).escaping && ON_THE_LINE[2] != ESCAPE && HEARD[2] == ESCAPE;
    assert SENT[..2] == [0x18, 0x19];
  }
}
