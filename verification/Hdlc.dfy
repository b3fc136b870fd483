/**
 Octet stuffing as in sections 4.1 and 4.2 of RFC 1662, around the check of Crc16.
 A body is what stands between two flags, its content what is left when the escapes are undone.
 */
module Hdlc {
  import opened Bytes
  import opened Crc16
  import opened CrcBits
  import opened CrcBursts
  import opened CrcDetection

  const FLAG: byte := 0x7E
  const ESCAPE: byte := 0x7D

  /** b ^ 0x20 */
  function Flip20(b: byte): byte { if (b / 0x20) % 2 == 0 then b + 0x20 else b - 0x20 }

  // ---- encoding --------------------------------------------------------------------

  function Escaped(b: byte): seq<byte> {
    if b == FLAG || b == ESCAPE then [ESCAPE, Flip20(b)] else [b]
  }

  function Stuff(s: seq<byte>): seq<byte> {
    if s == [] then [] else Stuff(s[..|s| - 1]) + Escaped(s[|s| - 1])
  }

  /** A payload with its check octets. */
  function Sealed(data: seq<byte>): seq<byte> { data + CrcBytes(Crc(data, INIT)) }

  function Encode(data: seq<byte>): seq<byte> { [FLAG] + Stuff(Sealed(data)) + [FLAG] }

  lemma StuffSnoc(s: seq<byte>, b: byte)
    ensures Stuff(s + [b]) == Stuff(s) + Escaped(b)
  {
    assert (s + [b])[..|s|] == s;
  }

  method HdlcEncode(data: seq<byte>) returns (out: seq<byte>)
    ensures out == Encode(data)
  {
    hide Crc, CrcBytes, Escaped;
    out := [FLAG];
    var crc := Crc16Ccitt(data, 0xFFFF);
    var payload := data + CrcBytes(Reg(crc));
    for i := 0 to |payload|
      invariant out == [FLAG] + Stuff(payload[..i])
    {
      var b := payload[i];
      StuffSnoc(payload[..i], b);
      assert payload[..i + 1] == payload[..i] + [b];
      EscapedIs(b);
      if b == FLAG || b == ESCAPE {
        out := out + [ESCAPE];
        out := out + [Flip20(b)];
      } else {
        out := out + [b];
      }
    }
    assert payload[..|payload|] == payload;
    out := out + [FLAG];
  }

  lemma EscapedIs(b: byte)
    ensures Escaped(b) == if b == FLAG || b == ESCAPE then [ESCAPE] + [Flip20(b)] else [b]
  {
  }

  // ---- decoding --------------------------------------------------------------------

  datatype Unstuffed = Unstuffed(out: seq<byte>, escaping: bool)

  function UnstuffStep(u: Unstuffed, b: byte): Unstuffed {
    if u.escaping then Unstuffed(u.out + [Flip20(b)], false)
    else if b == ESCAPE then Unstuffed(u.out, true)
    else Unstuffed(u.out + [b], false)
  }

  function Unstuff(s: seq<byte>): Unstuffed {
    if s == [] then Unstuffed([], false) else UnstuffStep(Unstuff(s[..|s| - 1]), s[|s| - 1])
  }

  /** The payload of a body, if its check agrees. An escape at the very end is dropped. */
  function Decode(body: seq<byte>): Option<seq<byte>> {
    var u := Unstuff(body).out;
    if Accepts(u) then Some(Data(u)) else None
  }

  lemma UnstuffSnoc(s: seq<byte>, b: byte)
    ensures Unstuff(s + [b]) == UnstuffStep(Unstuff(s), b)
  {
    assert (s + [b])[..|s|] == s;
  }

  method HdlcDecode(input: seq<byte>) returns (ok: bool, output: seq<byte>)
    ensures ok == Decode(input).Some?
    ensures output == if ok then Decode(input).value else []
  {
    hide Crc, UnstuffStep, CrcWord;
    var unstuffed: seq<byte> := [];
    var escaping := false;
    for i := 0 to |input|
      invariant Unstuff(input[..i]) == Unstuffed(unstuffed, escaping)
    {
      var b := input[i];
      UnstuffSnoc(input[..i], b);
      assert input[..i + 1] == input[..i] + [b];
      UnstuffStepIs(unstuffed, escaping, b);
      if escaping {
        unstuffed := unstuffed + [Flip20(b)];
        escaping := false;
      } else if b == ESCAPE {
        escaping := true;
      } else {
        unstuffed := unstuffed + [b];
      }
    }
    assert input[..|input|] == input;
    if |unstuffed| < 2 {
      return false, [];
    }
    var dataLen := |unstuffed| - 2;
    var frameCrc := CrcWord(unstuffed[dataLen], unstuffed[dataLen + 1]).v;
    var rawData := unstuffed[..dataLen];
    var calcCrc := Crc16Ccitt(rawData, 0xFFFF);
    if calcCrc != frameCrc {
      return false, [];
    }
    return true, rawData;
  }

  lemma UnstuffStepIs(out: seq<byte>, escaping: bool, b: byte)
    ensures UnstuffStep(Unstuffed(out, escaping), b) ==
            if escaping then Unstuffed(out + [Flip20(b)], false)
            else if b == ESCAPE then Unstuffed(out, true) else Unstuffed(out + [b], false)
  {
  }

  // ---- stuffing and unstuffing are inverse ------------------------------------------

  lemma {:induction false} UnstuffConcat(a: seq<byte>, b: seq<byte>)
    requires !Unstuff(a).escaping
    ensures Unstuff(a + b) == Unstuffed(Unstuff(a).out + Unstuff(b).out, Unstuff(b).escaping)
  {
    if b == [] {
      assert a + b == a;
    } else {
      var k := |b| - 1;
      UnstuffConcat(a, b[..k]);
      UnstuffSnoc(a + b[..k], b[k]);
      UnstuffSnoc(b[..k], b[k]);
      assert a + b == (a + b[..k]) + [b[k]];
      assert b == b[..k] + [b[k]];
    }
  }

  lemma UnstuffEscaped(b: byte)
    ensures Unstuff(Escaped(b)) == Unstuffed([b], false)
  {
    if b == FLAG || b == ESCAPE {
      UnstuffSnoc([], ESCAPE);
      UnstuffSnoc([ESCAPE], Flip20(b));
      assert [] + [ESCAPE] == [ESCAPE] && [ESCAPE] + [Flip20(b)] == Escaped(b);
    } else {
      UnstuffSnoc([], b);
      assert [] + [b] == [b];
    }
  }

  lemma {:induction false} UnstuffStuff(s: seq<byte>)
    ensures Unstuff(Stuff(s)) == Unstuffed(s, false)
  {
    hide Escaped, UnstuffStep;
    if s != [] {
      var k := |s| - 1;
      UnstuffStuff(s[..k]);
      UnstuffEscaped(s[k]);
      UnstuffConcat(Stuff(s[..k]), Escaped(s[k]));
      assert s == s[..k] + [s[k]];
    }
  }

  /** The decoder returns every payload the encoder was given. */
  lemma DecodeEncode(data: seq<byte>)
    ensures Decode(Stuff(Sealed(data))) == Some(data)
  {
    hide Crc, CrcBytes, Stuff, Unstuff, Accepts;
    UnstuffStuff(Sealed(data));
    assert Data(Sealed(data)) == data;
    AcceptsIff(Sealed(data));
  }

  /** A body made by stuffing is accepted exactly if what was stuffed is. */
  lemma DecodeStuffed(u: seq<byte>)
    ensures Decode(Stuff(u)) == if Accepts(u) then Some(Data(u)) else None
  {
    hide Accepts, Stuff, Unstuff;
    UnstuffStuff(u);
  }

  // ---- which bodies stuffing produces -----------------------------------------------

  predicate CanonicalAt(c: seq<byte>, i: nat)
    requires i < |c|
  {
    c[i] != FLAG && (c[i] == ESCAPE ==> i + 1 < |c| && (c[i + 1] == 0x5D || c[i + 1] == 0x5E))
  }

  /** No flag, and every escape is followed by one of the two octets that need one. */
  predicate Canonical(c: seq<byte>) { forall i :: 0 <= i < |c| ==> CanonicalAt(c, i) }

  lemma CanonicalConcat(a: seq<byte>, b: seq<byte>)
    requires Canonical(a) && Canonical(b)
    ensures Canonical(a + b)
  {
    forall i | 0 <= i < |a + b| ensures CanonicalAt(a + b, i) {
      if i < |a| {
        assert CanonicalAt(a, i);
      } else {
        assert CanonicalAt(b, i - |a|);
      }
    }
  }

  lemma CanonicalDrop(c: seq<byte>, n: nat)
    requires Canonical(c) && n <= |c|
    ensures Canonical(c[n..])
  {
    forall i | 0 <= i < |c[n..]| ensures CanonicalAt(c[n..], i) {
      assert CanonicalAt(c, n + i);
    }
  }

  lemma EmptyIsCanonical() ensures Canonical([]) {}

  lemma {:induction false} StuffIsCanonical(s: seq<byte>)
    ensures Canonical(Stuff(s))
  {
    hide Canonical;
    if s == [] {
      EmptyIsCanonical();
    } else {
      var k := |s| - 1;
      StuffIsCanonical(s[..k]);
      EscapedIsCanonical(s[k]);
      CanonicalConcat(Stuff(s[..k]), Escaped(s[k]));
    }
  }

  lemma EscapedIsCanonical(b: byte) ensures Canonical(Escaped(b)) {}

  lemma {:induction false} StuffConcat(a: seq<byte>, b: seq<byte>)
    ensures Stuff(a + b) == Stuff(a) + Stuff(b)
  {
    hide Escaped;
    if b == [] {
      assert a + b == a;
    } else {
      var k := |b| - 1;
      StuffConcat(a, b[..k]);
      StuffSnoc(a + b[..k], b[k]);
      assert a + b == (a + b[..k]) + [b[k]];
    }
  }

  lemma StuffOne(b: byte)
    ensures Stuff([b]) == Escaped(b)
  {
    StuffSnoc([], b);
    assert [] + [b] == [b];
  }

  /** A canonical body starts with one escaped octet. */
  lemma FirstOctet(c: seq<byte>) returns (b: byte)
    requires c != [] && Canonical(c)
    ensures |Escaped(b)| <= |c| && c == Escaped(b) + c[|Escaped(b)|..] && Canonical(c[|Escaped(b)|..])
  {
    assert CanonicalAt(c, 0);
    if c[0] == ESCAPE {
      b := Flip20(c[1]);
      assert Escaped(b) == [c[0], c[1]];
      CanonicalDrop(c, 2);
    } else {
      b := c[0];
      CanonicalDrop(c, 1);
    }
  }

  lemma {:induction false} StuffUnstuff(c: seq<byte>)
    requires Canonical(c)
    ensures Stuff(Unstuff(c).out) == c
    decreases |c|
  {
    if c != [] {
      var b := FirstOctet(c);
      var rest := c[|Escaped(b)|..];
      hide Escaped, UnstuffStep, Canonical, Stuff;
      UnstuffEscaped(b);
      EscapedNotEmpty(b);
      StuffUnstuff(rest);
      UnstuffConcat(Escaped(b), rest);
      StuffOne(b);
      StuffConcat([b], Unstuff(rest).out);
    } else {
      assert Unstuff(c).out == [];
    }
  }

  lemma EscapedNotEmpty(b: byte) ensures |Escaped(b)| > 0 {}

  /** Stuffing is a bijection onto the canonical bodies. */
  lemma CanonicalIff(c: seq<byte>)
    ensures Canonical(c) <==> Stuff(Unstuff(c).out) == c
    ensures Canonical(c) <==> exists s :: Stuff(s) == c
  {
    hide Canonical, Stuff, Unstuff;
    if Canonical(c) {
      StuffUnstuff(c);
    }
    forall s | Stuff(s) == c ensures Canonical(c) {
      StuffIsCanonical(s);
    }
  }

  lemma StuffInjective(s: seq<byte>, t: seq<byte>)
    requires Stuff(s) == Stuff(t)
    ensures s == t
  {
    UnstuffStuff(s);
    UnstuffStuff(t);
  }

  /** A body that decodes is what the encoder would have sent exactly if it is canonical. */
  lemma ReencodeIff(c: seq<byte>)
    requires Decode(c).Some?
    ensures Encode(Decode(c).value) == [FLAG] + c + [FLAG] <==> Canonical(c)
  {
    hide Canonical, Stuff, Unstuff, Crc, CrcBytes, Accepts;
    var u := Unstuff(c).out;
    AcceptsIff(u);
    assert Sealed(Data(u)) == u;
    CanonicalIff(c);
    if Encode(Data(u)) == [FLAG] + c + [FLAG] {
      assert ([FLAG] + Stuff(u) + [FLAG])[1..1 + |Stuff(u)|] == Stuff(u);
      assert ([FLAG] + c + [FLAG])[1..1 + |c|] == c;
      assert |Stuff(u)| == |c|;
    }
  }

  /** The escapes and the flags by their octets. */
  lemma EncodedByOctets(data: seq<byte>, b: byte)
    ensures Stuff([b]) == if b == 0x7E then [0x7D, 0x5E] else if b == 0x7D then [0x7D, 0x5D] else [b]
    ensures |Encode(data)| >= 2 && Encode(data)[0] == 0x7E == Encode(data)[|Encode(data)| - 1]
    ensures Encode(data)[1..|Encode(data)| - 1] == Stuff(Sealed(data))
  {
    hide Stuff, Sealed;
    StuffOne(b);
  }

  // ---- an escape at the end ------------------------------------------------------------

  /** An escape with nothing after it is dropped, and the body decodes as it would without. */
  lemma TrailingEscape(body: seq<byte>)
    requires !Unstuff(body).escaping
    ensures Decode(body + [ESCAPE]) == Decode(body)
  {
    hide Accepts, Unstuff;
    UnstuffSnoc(body, ESCAPE);
  }

  /** So every payload has a body that decodes to it and that the encoder never produces. */
  lemma NotCanonicalDecodes(data: seq<byte>)
    ensures var body := Stuff(Sealed(data)) + [ESCAPE]; Decode(body) == Some(data) && !Canonical(body)
  {
    hide Crc, CrcBytes, Stuff, Unstuff, Accepts, Sealed;
    UnstuffStuff(Sealed(data));
    DecodeEncode(data);
    TrailingEscape(Stuff(Sealed(data)));
    var body := Stuff(Sealed(data)) + [ESCAPE];
    assert !CanonicalAt(body, |body| - 1);
  }

  // ---- damaged content ---------------------------------------------------------------

  lemma SealedAccepted(data: seq<byte>)
    ensures Accepts(Sealed(data)) && Data(Sealed(data)) == data
  {
    hide Crc, CrcBytes;
    assert Data(Sealed(data)) == data;
    AcceptsIff(Sealed(data));
  }

  /**
   A body whose content is that of an encoded payload altered within 16 consecutive bits decodes
   exactly if the alteration is one of the twelve patterns across the end of the payload; none that
   keeps to the payload or to the check is.
   */
  lemma DecodesBurstIff(data: seq<byte>, body: seq<byte>, w: nat)
    requires |Unstuff(body).out| == |Sealed(data)| && Unstuff(body).out != Sealed(data)
    requires AgreeOutside(Bits(Sealed(data)), Bits(Unstuff(body).out), w, 16)
    ensures var u, v := Sealed(data), Unstuff(body).out;
            && (Decode(body).Some? <==> Escapes(PayloadError(u, v), CheckError(u, v)))
            && (Data(v) == data || v[|data|..] == CrcBytes(Crc(data, INIT)) ==> Decode(body) == None)
  {
    hide Crc, CrcBytes, Bits, Accepts, AgreeOutside, Escapes, PayloadError, CheckError, Unstuff;
    SealedAccepted(data);
    BurstAcceptedIff(Sealed(data), Unstuff(body).out, w);
  }

  /** One altered within 12 consecutive bits, anywhere in payload and check, does not decode. */
  lemma DecodeRejectsShortBurst(data: seq<byte>, body: seq<byte>, w: nat)
    requires |Unstuff(body).out| == |Sealed(data)| && Unstuff(body).out != Sealed(data)
    requires AgreeOutside(Bits(Sealed(data)), Bits(Unstuff(body).out), w, 12)
    ensures Decode(body) == None
  {
    hide Crc, CrcBytes, Bits, Accepts, AgreeOutside, Unstuff;
    SealedAccepted(data);
    ShortBurstRejected(Sealed(data), Unstuff(body).out, w);
  }

  /** Nor does one with an odd number of bits altered. */
  lemma DecodeRejectsOddFlips(data: seq<byte>, body: seq<byte>)
    requires |Unstuff(body).out| == |Sealed(data)|
    requires Ones(Difference(Bits(Sealed(data)), Bits(Unstuff(body).out))) % 2 == 1
    ensures Decode(body) == None
  {
    hide Crc, CrcBytes, Bits, Accepts, Ones, Unstuff;
    SealedAccepted(data);
    OddErrorRejected(Sealed(data), Unstuff(body).out);
  }

  // ---- length ----------------------------------------------------------------------

  function Specials(s: seq<byte>): (n: nat)
    ensures n <= |s|
  {
    if s == [] then 0
    else Specials(s[..|s| - 1]) + (if s[|s| - 1] == FLAG || s[|s| - 1] == ESCAPE then 1 else 0)
  }

  lemma {:induction false} StuffLength(s: seq<byte>)
    ensures |Stuff(s)| == |s| + Specials(s)
  {
    if s != [] {
      StuffLength(s[..|s| - 1]);
    }
  }

  /** The reserved 2n + 6 octets always suffice, and each octet above n + 4 is an escape. */
  lemma EncodedLength(data: seq<byte>)
    ensures |data| + 4 <= |Encode(data)| <= 2 * |data| + 6
    ensures |Encode(data)| == |data| + 4 + Specials(Sealed(data))
  {
    hide Stuff, Specials, Crc, CrcBytes;
    StuffLength(Sealed(data));
  }
}
