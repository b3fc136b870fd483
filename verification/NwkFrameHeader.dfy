/**
 The full NWK header: seven fixed octets, then a source route record and an auxiliary security
 header, each present when its flag says so, the latter with a key identifier when its mode is
 not zero. The parser is measured against an encoder that states the layout.
 */
module NwkHeader {
  import opened Bytes

  datatype AuxSecurityHeader = AuxSecurityHeader(securityControl: byte, frameCounter: int, keyIdentifier: Option<byte>)

  datatype NwkFrameHeader = NwkFrameHeader(
    frameControl: byte, protocolVersion: byte, frameType: byte,
    discoverRoute: bool, multicast: bool, security: bool, sourceRoute: bool,
    sequenceNumber: byte, dstAddr: word, srcAddr: word, radius: byte,
    sourceRouteRecord: seq<word>, auxSec: Option<AuxSecurityHeader>)

  // ---- the layout ------------------------------------------------------------------

  function Flag(b: bool, weight: nat): nat { if b then weight else 0 }

  /** The frame control octet of the fields it carries. */
  function FrameControlOf(h: NwkFrameHeader): nat {
    h.protocolVersion + 4 * h.frameType + Flag(h.discoverRoute, 16) + Flag(h.multicast, 32) +
    Flag(h.security, 64) + Flag(h.sourceRoute, 128)
  }

  predicate AuxWellFormed(a: AuxSecurityHeader) {
    0 <= a.frameCounter < 0x1_0000_0000 && (a.keyIdentifier.Some? <==> (a.securityControl / 4) % 4 != 0)
  }

  predicate WellFormed(h: NwkFrameHeader) {
    && h.protocolVersion < 4 && h.frameType < 4 && h.frameControl == FrameControlOf(h)
    && |h.sourceRouteRecord| <= 255 && (!h.sourceRoute ==> h.sourceRouteRecord == [])
    && (h.auxSec.Some? <==> h.security)
    && (h.auxSec.Some? ==> AuxWellFormed(h.auxSec.value))
  }

  function FixedBytes(h: NwkFrameHeader): (bs: seq<byte>)
    ensures |bs| == 7
  {
    [h.frameControl, h.sequenceNumber, Lo(h.dstAddr), Hi(h.dstAddr), Lo(h.srcAddr), Hi(h.srcAddr), h.radius]
  }

  function RouteBytes(present: bool, route: seq<word>): seq<byte> {
    if present then [Truncate(|route|)] + WordBytes(route) else []
  }

  /** The four octets of a 32-bit counter, low octet first. */
  function CounterBytes(c: int): (bs: seq<byte>)
    requires 0 <= c < 0x1_0000_0000
    ensures |bs| == 4
  {
    [c % 0x100, (c / 0x100) % 0x100, (c / 0x1_0000) % 0x100, c / 0x100_0000]
  }

  function AuxBytes(aux: Option<AuxSecurityHeader>): seq<byte>
    requires aux.Some? ==> AuxWellFormed(aux.value)
  {
    match aux
    case None => []
    case Some(a) =>
      [a.securityControl] + CounterBytes(a.frameCounter) +
      (match a.keyIdentifier case Some(k) => [k] case None => [])
  }

  function Encode(h: NwkFrameHeader): seq<byte>
    requires WellFormed(h)
  {
    FixedBytes(h) + RouteBytes(h.sourceRoute, h.sourceRouteRecord) + AuxBytes(h.auxSec)
  }

  // ---- the parser ------------------------------------------------------------------

  function ExtractBits(b: byte, pos: nat, len: nat): nat { (b / Pow2(pos)) % Pow2(len) }

  function Counter(data: seq<byte>, at: nat): int
    requires at + 4 <= |data|
  {
    var b0: int, b1: int, b2: int, b3: int := data[at], data[at + 1], data[at + 2], data[at + 3];
    b0 + 0x100 * b1 + 0x1_0000 * b2 + 0x100_0000 * b3
  }

  /** The fixed fields at offset, with the optional parts still empty. */
  function FixedAt(data: seq<byte>, offset: nat): NwkFrameHeader
    requires offset + 7 <= |data|
  {
    var fc := data[offset];
    NwkFrameHeader(fc, fc % 4, (fc / 4) % 4,
                   (fc / 16) % 2 != 0, (fc / 32) % 2 != 0, (fc / 64) % 2 != 0, (fc / 128) % 2 != 0,
                   data[offset + 1], Word(data[offset + 2], data[offset + 3]), Word(data[offset + 4], data[offset + 5]),
                   data[offset + 6], [], None)
  }

  /** Where the source route record that starts at `at` ends, if it fits. */
  function RouteEnd(data: seq<byte>, at: nat, present: bool): (end: Option<nat>)
    requires at <= |data|
    ensures end.Some? ==> at <= end.value <= |data|
  {
    if !present then Some(at)
    else if |data| < at + 1 then None
    else
      var count: nat := data[at];
      if |data| < at + 1 + count * 2 then None else Some(at + 1 + count * 2)
  }

  function RouteAt(data: seq<byte>, at: nat, present: bool): seq<word>
    requires at <= |data| && RouteEnd(data, at, present).Some?
  {
    if present then ReadWords(data, at + 1, data[at]) else []
  }

  function AuxEnd(data: seq<byte>, at: nat, present: bool): (end: Option<nat>)
    requires at <= |data|
    ensures end.Some? ==> at <= end.value <= |data|
  {
    if !present then Some(at)
    else if |data| < at + 5 then None
    else if (data[at] / 4) % 4 == 0 then Some(at + 5)
    else if |data| < at + 6 then None
    else Some(at + 6)
  }

  function AuxAt(data: seq<byte>, at: nat, present: bool): Option<AuxSecurityHeader>
    requires at <= |data| && AuxEnd(data, at, present).Some?
  {
    if !present then None
    else
      var key := if (data[at] / 4) % 4 == 0 then None else Some(data[at + 5]);
      Some(AuxSecurityHeader(data[at], Counter(data, at + 1), key))
  }

  /** The header at offset and its length. */
  function ParseAt(data: seq<byte>, offset: nat): Option<(NwkFrameHeader, nat)> {
    if |data| < offset + 7 then None
    else
      var h := FixedAt(data, offset);
      match RouteEnd(data, offset + 7, h.sourceRoute)
      case None => None
      case Some(mid) =>
        match AuxEnd(data, mid, h.security)
        case None => None
        case Some(end) =>
          Some((h.(sourceRouteRecord := RouteAt(data, offset + 7, h.sourceRoute),
                   auxSec := AuxAt(data, mid, h.security)), end - offset))
  }

  /** The octets counted when the parser stops, done or not; before the fixed fields the caller's value stays. */
  function LengthReached(data: seq<byte>, offset: nat, previous: nat): nat {
    if |data| < offset + 7 then previous
    else
      var h := FixedAt(data, offset);
      if h.sourceRoute && |data| < offset + 8 then 7
      else
        match RouteEnd(data, offset + 7, h.sourceRoute)
        case None => 8
        case Some(mid) =>
          if h.security && |data| < mid + 5 then mid - offset
          else
            match AuxEnd(data, mid, h.security)
            case None => mid + 5 - offset
            case Some(end) => end - offset
  }

  lemma BitFields(fc: byte)
    ensures ExtractBits(fc, 0, 2) == fc % 4 && ExtractBits(fc, 2, 2) == (fc / 4) % 4
  {
    assert Pow2(0) == 1 && Pow2(2) == 4;
  }

  /** The length is an out-parameter in both directions: previous is what the caller had in it. */
  method Parse(data: seq<byte>, offset: nat, previous: nat)
    returns (result: Option<NwkFrameHeader>, totalHeaderLength: nat)
    ensures result.Some? <==> ParseAt(data, offset).Some?
    ensures result.Some? ==> ParseAt(data, offset).value == (result.value, totalHeaderLength)
    ensures totalHeaderLength == LengthReached(data, offset, previous)
    ensures |data| >= offset + 7 ==> 7 <= totalHeaderLength <= |data| - offset
  {
    hide ReadWords;
    totalHeaderLength := previous;
    if |data| < offset + 7 {
      return None, totalHeaderLength;
    }
    var frameControl := data[offset];
    BitFields(frameControl);
    var hdr := NwkFrameHeader(
      frameControl, ExtractBits(frameControl, 0, 2), ExtractBits(frameControl, 2, 2),
      (frameControl / 16) % 2 != 0, (frameControl / 32) % 2 != 0,
      (frameControl / 64) % 2 != 0, (frameControl / 128) % 2 != 0,
      data[offset + 1], Word(data[offset + 2], data[offset + 3]), Word(data[offset + 4], data[offset + 5]),
      data[offset + 6], [], None);
    assert hdr == FixedAt(data, offset);
    totalHeaderLength := 7;
    var currentOffset := offset + 7;
    if hdr.sourceRoute {
      if |data| < currentOffset + 1 {
        return None, totalHeaderLength;
      }
      var routeCount: nat := data[currentOffset];
      currentOffset := currentOffset + 1;
      totalHeaderLength := totalHeaderLength + 1;
      if |data| < currentOffset + routeCount * 2 {
        return None, totalHeaderLength;
      }
      var record: seq<word> := [];
      NoWords(data, offset + 8);
      for i := 0 to routeCount
        invariant currentOffset == offset + 8 + 2 * i && totalHeaderLength == currentOffset - offset
        invariant record == ReadWords(data, offset + 8, i)
      {
        var hop := Word(data[currentOffset], data[currentOffset + 1]);
        OneMoreWord(data, offset + 8, i);
        record := record + [hop];
        currentOffset := currentOffset + 2;
        totalHeaderLength := totalHeaderLength + 2;
      }
      hdr := hdr.(sourceRouteRecord := record);
    }
    if hdr.security {
      if |data| < currentOffset + 5 {
        return None, totalHeaderLength;
      }
      var securityControl := data[currentOffset];
      currentOffset := currentOffset + 1;
      totalHeaderLength := totalHeaderLength + 1;
      var frameCounter := Counter(data, currentOffset);
      currentOffset := currentOffset + 4;
      totalHeaderLength := totalHeaderLength + 4;
      BitFields(securityControl);
      var keyIdMode := ExtractBits(securityControl, 2, 2);
      var key := None;
      if keyIdMode != 0 {
        if |data| < currentOffset + 1 {
          return None, totalHeaderLength;
        }
        key := Some(data[currentOffset]);
        currentOffset := currentOffset + 1;
        totalHeaderLength := totalHeaderLength + 1;
      }
      hdr := hdr.(auxSec := Some(AuxSecurityHeader(securityControl, frameCounter, key)));
    }
    result := Some(hdr);
  }

  lemma NoWords(data: seq<byte>, from: nat)
    requires from <= |data|
    ensures ReadWords(data, from, 0) == []
  {
  }

  lemma OneMoreWord(data: seq<byte>, from: nat, i: nat)
    requires from + 2 * i + 2 <= |data|
    ensures ReadWords(data, from, i + 1) ==
            ReadWords(data, from, i) + [Word(data[from + 2 * i], data[from + 2 * i + 1])]
  {
  }

  /** The basic version of the serialiser. */
  method BuildHeader(h: NwkFrameHeader) returns (buf: seq<byte>)
    ensures WellFormed(h) ==> buf == Encode(h)[..7]
    ensures buf == FixedBytes(h)
  {
    buf := [h.frameControl];
    buf := buf + [h.sequenceNumber];
    buf := buf + [Lo(h.dstAddr)] + [Hi(h.dstAddr)];
    buf := buf + [Lo(h.srcAddr)] + [Hi(h.srcAddr)];
    buf := buf + [h.radius];
  }

  // ---- by octets -----------------------------------------------------------------------

  /** The hop number i of the record of a header at offset. */
  function HopAt(data: seq<byte>, offset: nat, i: nat): word {
    var at := offset + 8 + 2 * i;
    if at + 2 <= |data| then Word(data[at], data[at + 1]) else 0
  }

  lemma {:induction false} HopsRead(data: seq<byte>, offset: nat, n: nat)
    requires offset + 8 + 2 * n <= |data|
    ensures forall i :: 0 <= i < n ==> ReadWords(data, offset + 8, n)[i] == HopAt(data, offset, i)
    decreases n
  {
    hide Word;
    if n > 0 {
      HopsRead(data, offset, n - 1);
    }
  }

  /** The octets from the fixed fields to where the auxiliary header would start, at an offset where they fit. */
  function MidOf(data: seq<byte>, offset: nat): nat {
    if |data| < offset + 8 || data[offset] < 0x80 then offset + 7 else offset + 8 + 2 * (data[offset + 7] as int)
  }

  /** Which octets of a header that parses are what. */
  lemma HeaderByOctets(data: seq<byte>, offset: nat)
    requires ParseAt(data, offset).Some?
    ensures var (h, _) := ParseAt(data, offset).value;
            var fc := data[offset];
            && h.frameControl == fc && h.protocolVersion == fc % 4 && h.frameType == (fc / 4) % 4
            && (h.discoverRoute <==> (fc / 16) % 2 == 1) && (h.multicast <==> (fc / 32) % 2 == 1)
            && (h.security <==> (fc / 64) % 2 == 1) && (h.sourceRoute <==> fc >= 128)
            && h.sequenceNumber == data[offset + 1] && h.dstAddr == Word(data[offset + 2], data[offset + 3])
            && h.srcAddr == Word(data[offset + 4], data[offset + 5]) && h.radius == data[offset + 6]
  {
    hide ReadWords, Word, Counter;
  }

  /** And the octets of its optional parts. */
  lemma PartsByOctets(data: seq<byte>, offset: nat)
    requires ParseAt(data, offset).Some?
    ensures var (h, len) := ParseAt(data, offset).value;
            var mid := MidOf(data, offset);
            && (if data[offset] >= 0x80
                then
                  && |h.sourceRouteRecord| == data[offset + 7] as int
                  && forall i :: 0 <= i < |h.sourceRouteRecord| ==> h.sourceRouteRecord[i] == HopAt(data, offset, i)
                else h.sourceRouteRecord == [])
            && (match h.auxSec
                case None => (data[offset] / 64) % 2 == 0 && offset + len == mid
                case Some(a) =>
                  && (data[offset] / 64) % 2 == 1
                  && a.securityControl == data[mid]
                  && CounterBytesAt(data, mid + 1, a.frameCounter)
                  && (match a.keyIdentifier
                      case None => (data[mid] / 4) % 4 == 0 && offset + len == mid + 5
                      case Some(k) => (data[mid] / 4) % 4 != 0 && k == data[mid + 5] && offset + len == mid + 6))
  {
    hide ReadWords, Word, HopAt, Counter, CounterBytesAt;
    if data[offset] >= 0x80 {
      HopsRead(data, offset, data[offset + 7]);
    }
    var (h, _) := ParseAt(data, offset).value;
    if h.auxSec.Some? {
      CounterAt(data, MidOf(data, offset) + 1);
    }
  }

  /** c is the number the four octets at `at` are the digits of, lowest first. */
  predicate CounterBytesAt(data: seq<byte>, at: nat, c: int) {
    at + 4 <= |data| && 0 <= c &&
    c % 0x100 == data[at] && (c / 0x100) % 0x100 == data[at + 1] &&
    (c / 0x1_0000) % 0x100 == data[at + 2] && c / 0x100_0000 == data[at + 3]
  }

  lemma CounterAt(data: seq<byte>, at: nat)
    requires at + 4 <= |data|
    ensures CounterBytesAt(data, at, Counter(data, at))
  {
  }

  /** Where the parser gives up, and the length it has counted by then. */
  lemma FailsByOctets(data: seq<byte>, offset: nat, previous: nat)
    ensures var r, n := ParseAt(data, offset), LengthReached(data, offset, previous);
            var mid := MidOf(data, offset);
            if |data| < offset + 7 then r == None && n == previous
            else if data[offset] >= 0x80 && |data| < offset + 8 then r == None && n == 7
            else if data[offset] >= 0x80 && |data| < mid then r == None && n == 8
            else if (data[offset] / 64) % 2 == 0 then r.Some? && n == mid - offset
            else if |data| < mid + 5 then r == None && n == mid - offset
            else if (data[mid] / 4) % 4 == 0 then r.Some? && n == mid + 5 - offset
            else if |data| < mid + 6 then r == None && n == mid + 5 - offset
            else r.Some? && n == mid + 6 - offset
  {
    hide ReadWords, Word, Counter;
  }

  /** The octets the serialiser gives. */
  lemma FixedByOctets(h: NwkFrameHeader)
    ensures var f := FixedBytes(h);
            && f[0] == h.frameControl && f[1] == h.sequenceNumber && Word(f[2], f[3]) == h.dstAddr
            && Word(f[4], f[5]) == h.srcAddr && f[6] == h.radius
  {
  }

  // ---- what is encoded is parsed back ------------------------------------------------

  lemma BitsApart(fc: int, v: int, t: int, d: int, m: int, s: int, r: int)
    requires fc == v + 4 * t + 16 * d + 32 * m + 64 * s + 128 * r
    requires 0 <= v < 4 && 0 <= t < 4 && 0 <= d < 2 && 0 <= m < 2 && 0 <= s < 2 && 0 <= r < 2
    ensures fc % 4 == v && (fc / 4) % 4 == t && (fc / 16) % 2 == d
    ensures (fc / 32) % 2 == m && (fc / 64) % 2 == s && (fc / 128) % 2 == r
  {
    assert fc / 4 == t + 4 * d + 8 * m + 16 * s + 32 * r;
    assert fc / 16 == d + 2 * m + 4 * s + 8 * r;
    assert fc / 32 == m + 2 * s + 4 * r;
    assert fc / 64 == s + 2 * r;
    assert fc / 128 == r;
  }

  lemma ControlBack(h: NwkFrameHeader)
    requires WellFormed(h)
    ensures var fc := h.frameControl;
            && fc % 4 == h.protocolVersion && (fc / 4) % 4 == h.frameType
            && (fc / 16) % 2 == Flag(h.discoverRoute, 1) && (fc / 32) % 2 == Flag(h.multicast, 1)
            && (fc / 64) % 2 == Flag(h.security, 1) && (fc / 128) % 2 == Flag(h.sourceRoute, 1)
  {
    BitsApart(h.frameControl, h.protocolVersion, h.frameType, Flag(h.discoverRoute, 1), Flag(h.multicast, 1),
              Flag(h.security, 1), Flag(h.sourceRoute, 1));
  }

  lemma FixedOctets(pre: seq<byte>, fixed: seq<byte>, rest: seq<byte>, i: nat)
    requires i < |fixed|
    ensures (pre + fixed + rest)[|pre| + i] == fixed[i]
  {
  }

  lemma FixedBack(pre: seq<byte>, h: NwkFrameHeader, rest: seq<byte>)
    requires WellFormed(h)
    ensures FixedAt(pre + FixedBytes(h) + rest, |pre|) == h.(sourceRouteRecord := [], auxSec := None)
  {
    hide WellFormed;
    var fixed := FixedBytes(h);
    FixedOctets(pre, fixed, rest, 0);
    FixedOctets(pre, fixed, rest, 1);
    FixedOctets(pre, fixed, rest, 2);
    FixedOctets(pre, fixed, rest, 3);
    FixedOctets(pre, fixed, rest, 4);
    FixedOctets(pre, fixed, rest, 5);
    FixedOctets(pre, fixed, rest, 6);
    ControlBack(h);
  }

  lemma RouteBack(pre: seq<byte>, present: bool, route: seq<word>, rest: seq<byte>)
    requires |route| <= 255 && (!present ==> route == [])
    ensures var data := pre + RouteBytes(present, route) + rest;
            && RouteEnd(data, |pre|, present) == Some(|pre| + |RouteBytes(present, route)|)
            && RouteAt(data, |pre|, present) == route
  {
    hide WordBytes, ReadWords;
    if present {
      var data := pre + RouteBytes(present, route) + rest;
      FixedOctets(pre, RouteBytes(present, route), rest, 0);
      assert data == (pre + [Truncate(|route|)]) + WordBytes(route) + rest;
      ReadWritten(pre + [Truncate(|route|)], route, rest);
    }
  }

  lemma CounterParts(c: int)
    requires 0 <= c < 0x1_0000_0000
    ensures c == c % 0x100 + 0x100 * ((c / 0x100) % 0x100) + 0x1_0000 * ((c / 0x1_0000) % 0x100) +
                 0x100_0000 * (c / 0x100_0000)
  {
  }

  lemma AuxBack(pre: seq<byte>, a: AuxSecurityHeader, rest: seq<byte>)
    requires AuxWellFormed(a)
    ensures var data := pre + AuxBytes(Some(a)) + rest;
            && AuxEnd(data, |pre|, true) == Some(|pre| + |AuxBytes(Some(a))|)
            && AuxAt(data, |pre|, true) == Some(a)
  {
    var bytes := AuxBytes(Some(a));
    FixedOctets(pre, bytes, rest, 0);
    FixedOctets(pre, bytes, rest, 1);
    FixedOctets(pre, bytes, rest, 2);
    FixedOctets(pre, bytes, rest, 3);
    FixedOctets(pre, bytes, rest, 4);
    CounterParts(a.frameCounter);
    if a.keyIdentifier.Some? {
      FixedOctets(pre, bytes, rest, 5);
    }
  }

  /** The parser takes back every header the layout allows, wherever it stands. */
  lemma ParseEncode(pre: seq<byte>, h: NwkFrameHeader, post: seq<byte>)
    requires WellFormed(h)
    ensures ParseAt(pre + Encode(h) + post, |pre|) == Some((h, |Encode(h)|))
  {
    hide FixedBytes, RouteBytes, AuxBytes, FixedAt, RouteEnd, RouteAt, AuxEnd, AuxAt;
    var fixed, route, aux := FixedBytes(h), RouteBytes(h.sourceRoute, h.sourceRouteRecord), AuxBytes(h.auxSec);
    var data := pre + Encode(h) + post;
    assert data == pre + fixed + (route + aux + post);
    FixedBack(pre, h, route + aux + post);
    assert data == (pre + fixed) + route + (aux + post);
    RouteBack(pre + fixed, h.sourceRoute, h.sourceRouteRecord, aux + post);
    assert data == (pre + fixed + route) + aux + post;
    if h.security {
      AuxBack(pre + fixed + route, h.auxSec.value, post);
    } else {
      NoAux(data, |pre + fixed + route|);
    }
  }

  lemma NoAux(data: seq<byte>, at: nat)
    requires at <= |data|
    ensures AuxEnd(data, at, false) == Some(at) && AuxAt(data, at, false) == None && AuxBytes(None) == []
  {
  }

  // ---- what is parsed is what would be encoded ----------------------------------------

  lemma BitsTogether(fc: int)
    requires 0 <= fc < 0x100
    ensures fc == fc % 4 + 4 * ((fc / 4) % 4) + 16 * ((fc / 16) % 2) + 32 * ((fc / 32) % 2) + 64 * ((fc / 64) % 2) +
                  128 * ((fc / 128) % 2)
  {
    var afterVersion := fc / 4;
    var afterType := afterVersion / 4;
    var afterDiscover := afterType / 2;
    var afterMulticast := afterDiscover / 2;
    var afterSecurity := afterMulticast / 2;
    BitsApart(fc, fc % 4, afterVersion % 4, afterType % 2, afterDiscover % 2, afterMulticast % 2, afterSecurity);
  }

  lemma ControlForth(data: seq<byte>, offset: nat)
    requires offset + 7 <= |data|
    ensures var h := FixedAt(data, offset);
            h.protocolVersion < 4 && h.frameType < 4 && h.frameControl == FrameControlOf(h)
  {
    BitsTogether(data[offset]);
  }

  lemma WordForth(lo: byte, hi: byte) ensures Lo(Word(lo, hi)) == lo && Hi(Word(lo, hi)) == hi {}

  lemma FixedForth(data: seq<byte>, offset: nat)
    requires offset + 7 <= |data|
    ensures FixedBytes(FixedAt(data, offset)) == data[offset..offset + 7]
  {
    hide Lo, Hi, Word;
    WordForth(data[offset + 2], data[offset + 3]);
    WordForth(data[offset + 4], data[offset + 5]);
  }

  lemma RouteForth(data: seq<byte>, at: nat, present: bool)
    requires at <= |data| && RouteEnd(data, at, present).Some?
    ensures var route, end := RouteAt(data, at, present), RouteEnd(data, at, present).value;
            && RouteBytes(present, route) == data[at..end]
            && |route| <= 255 && (!present ==> route == [])
            && end == at + (if present then 1 + 2 * |route| else 0)
  {
    hide WordBytes, ReadWords;
    if present {
      WrittenRead(data, at + 1, data[at]);
      assert data[at..at + 1 + 2 * (data[at] as int)] == [data[at]] + data[at + 1..at + 1 + 2 * (data[at] as int)];
    }
  }

  lemma CounterForth(b0: byte, b1: byte, b2: byte, b3: byte)
    ensures var c: int := b0 as int + 0x100 * (b1 as int) + 0x1_0000 * (b2 as int) + 0x100_0000 * (b3 as int);
            0 <= c < 0x1_0000_0000 && CounterBytes(c) == [b0, b1, b2, b3]
  {
    var c: int := b0 as int + 0x100 * (b1 as int) + 0x1_0000 * (b2 as int) + 0x100_0000 * (b3 as int);
    assert c / 0x100 == b1 as int + 0x100 * (b2 as int) + 0x1_0000 * (b3 as int);
    assert c / 0x1_0000 == b2 as int + 0x100 * (b3 as int);
    assert c / 0x100_0000 == b3;
  }

  lemma AuxForth(data: seq<byte>, at: nat)
    requires at <= |data| && AuxEnd(data, at, true).Some?
    ensures var aux, end := AuxAt(data, at, true), AuxEnd(data, at, true).value;
            && aux.Some? && AuxWellFormed(aux.value)
            && AuxBytes(aux) == data[at..end]
            && end == at + 5 + (if aux.value.keyIdentifier.Some? then 1 else 0)
  {
    hide CounterBytes;
    CounterForth(data[at + 1], data[at + 2], data[at + 3], data[at + 4]);
  }

  /** The octets the header h takes up. */
  function LengthOf(h: NwkFrameHeader): nat {
    7 + (if h.sourceRoute then 1 + 2 * |h.sourceRouteRecord| else 0) +
    (match h.auxSec
     case None => 0
     case Some(a) => 5 + (if a.keyIdentifier.Some? then 1 else 0))
  }

  /**
   A header that parses lies within the data, has the length its parts add up to, and re-encodes to
   the octets it came from.
   */
  lemma EncodeParse(data: seq<byte>, offset: nat)
    requires ParseAt(data, offset).Some?
    ensures var (h, len) := ParseAt(data, offset).value;
            && offset + len <= |data| && len == LengthOf(h)
            && WellFormed(h) && Encode(h) == data[offset..offset + len]
  {
    hide FixedBytes, RouteBytes, AuxBytes, RouteEnd, RouteAt, AuxEnd, AuxAt, FrameControlOf, AuxWellFormed;
    var (h, len) := ParseAt(data, offset).value;
    ControlForth(data, offset);
    FixedForth(data, offset);
    RouteForth(data, offset + 7, h.sourceRoute);
    var mid := RouteEnd(data, offset + 7, h.sourceRoute).value;
    if h.security {
      AuxForth(data, mid);
    } else {
      NoAux(data, mid);
    }
    FixedIgnores(FixedAt(data, offset), h);
    CutInThree(data, offset, offset + 7, mid, offset + len);
  }

  lemma CutInThree(data: seq<byte>, a: nat, b: nat, c: nat, d: nat)
    requires a <= b <= c <= d <= |data|
    ensures data[a..d] == data[a..b] + data[b..c] + data[c..d]
  {
  }

  lemma FixedIgnores(g: NwkFrameHeader, h: NwkFrameHeader)
    requires h == g.(sourceRouteRecord := h.sourceRouteRecord, auxSec := h.auxSec)
    ensures FixedBytes(h) == FixedBytes(g) && FrameControlOf(h) == FrameControlOf(g)
  {
  }

  /**
   Parsing succeeds exactly where the layout of some header stands, and then it returns that
   header: the octets before and after it have no say.
   */
  lemma ParseIff(data: seq<byte>, offset: nat, h: NwkFrameHeader)
    ensures ParseAt(data, offset) == Some((h, LengthOf(h))) <==>
            WellFormed(h) && offset + |Encode(h)| <= |data| && data[offset..offset + |Encode(h)|] == Encode(h)
    ensures ParseAt(data, offset).Some? ==> ParseAt(data, offset).value.1 == LengthOf(ParseAt(data, offset).value.0)
  {
    hide ParseAt, WellFormed, Encode, LengthOf;
    if ParseAt(data, offset).Some? {
      EncodeParse(data, offset);
    }
    if WellFormed(h) && offset + |Encode(h)| <= |data| && data[offset..offset + |Encode(h)|] == Encode(h) {
      var pre, post := data[..offset], data[offset + |Encode(h)|..];
      assert data == pre + Encode(h) + post;
      ParseEncode(pre, h, post);
      EncodeParse(data, offset);
    }
  }
}
