/**
 The network frames the NWK layer exchanges: seven fixed octets, a source route when the
 flag asks for one, then the payload.
 */
module NwkFrame {
  import opened Bytes

  const BROADCAST: word := 0xFFFF
  const ROUTE_EXTENSION: byte := 0x04

  datatype Header = Header(security: bool, sourceRoute: bool, seqNum: byte, dst: word, src: word, radius: byte)

  /** A parsed header, the offset of the payload and the hops listed. */
  datatype Parsed = Parsed(hdr: Header, headerLen: nat, route: seq<word>)

  function FrameControl(security: bool, sourceRoute: bool): byte {
    (if security then 0x01 else 0) + (if sourceRoute then 0x08 else 0)
  }

  function ExtensionHead(count: byte): (bs: seq<byte>)
    ensures |bs| == 2
  {
    [ROUTE_EXTENSION, count]
  }

  /** The source route extension, empty when there are no hops. */
  function Extension(route: seq<word>): seq<byte> {
    if route == [] then [] else ExtensionHead(Truncate(|route|)) + WordBytes(route)
  }

  function Fixed(h: Header): (bs: seq<byte>)
    ensures |bs| == 7
  {
    [FrameControl(h.security, h.sourceRoute), h.seqNum, Lo(h.dst), Hi(h.dst), Lo(h.src), Hi(h.src), h.radius]
  }

  function Build(payload: seq<byte>, h: Header, route: seq<word>): (frame: seq<byte>) {
    Fixed(h) + (if h.sourceRoute then Extension(route) else []) + payload
  }

  method BuildNwkFrame(nwkPayload: seq<byte>, dstAddr: word, srcAddr: word, radius: byte, seqNum: byte,
                       security: bool, sourceRoute: bool, srcRoute: seq<word>) returns (result: seq<byte>)
    ensures result == Build(nwkPayload, Header(security, sourceRoute, seqNum, dstAddr, srcAddr, radius), srcRoute)
  {
    hide WordBytes;
    var fc: byte := 0;
    if security { fc := fc + 0x01; }
    if sourceRoute { fc := fc + 0x08; }
    result := [fc];
    result := result + [seqNum];
    result := result + [Lo(dstAddr)] + [Hi(dstAddr)];
    result := result + [Lo(srcAddr)] + [Hi(srcAddr)];
    result := result + [radius];
    ghost var fixed := result;
    assert fixed == Fixed(Header(security, sourceRoute, seqNum, dstAddr, srcAddr, radius));
    if sourceRoute && srcRoute != [] {
      var count := Truncate(|srcRoute|);
      result := result + [ROUTE_EXTENSION];
      result := result + [count];
      ghost var start := ExtensionHead(count);
      NoWordBytes();
      for i := 0 to |srcRoute|
        invariant result == fixed + (start + WordBytes(srcRoute[..i]))
      {
        WordBytesSnoc(srcRoute[..i], srcRoute[i]);
        assert srcRoute[..i + 1] == srcRoute[..i] + [srcRoute[i]];
        result := result + [Lo(srcRoute[i])] + [Hi(srcRoute[i])];
      }
      assert srcRoute[..|srcRoute|] == srcRoute;
    }
    result := result + nwkPayload;
  }

  lemma NoWordBytes() ensures WordBytes([]) == [] {}

  /** Whether the octets after the fixed part announce a source route. */
  predicate HasExtension(data: seq<byte>)
    requires |data| >= 7
  {
    (data[0] / 0x08) % 2 == 1 && |data| > 8 && data[7] == ROUTE_EXTENSION
  }

  function FixedFields(data: seq<byte>): Header
    requires |data| >= 7
  {
    Header(data[0] % 2 == 1, (data[0] / 0x08) % 2 == 1, data[1],
           Word(data[2], data[3]), Word(data[4], data[5]), data[6])
  }

  /** Where the payload starts after a source route of count hops. */
  function HopsEnd(count: nat): nat { 9 + 2 * count }

  function Parse(data: seq<byte>): (r: Option<Parsed>)
    ensures r.Some? ==> 7 <= r.value.headerLen <= |data|
  {
    if |data| < 7 then None
    else if !HasExtension(data) then Some(Parsed(FixedFields(data), 7, []))
    else if |data| < HopsEnd(data[8]) then None
    else Some(Parsed(FixedFields(data), HopsEnd(data[8]), ReadWords(data, 9, data[8])))
  }

  method ParseNwkHeader(data: seq<byte>) returns (ok: bool, hdr: Header, headerLen: nat, route: seq<word>)
    ensures ok == Parse(data).Some?
    ensures ok ==> Parse(data).value == Parsed(hdr, headerLen, route)
  {
    hdr, headerLen, route := Header(false, false, 0, 0, 0, 0), 0, [];
    if |data| < 7 {
      return false, hdr, headerLen, route;
    }
    var fc := data[0];
    hdr := Header(fc % 2 == 1, (fc / 0x08) % 2 == 1, data[1], Word(data[2], data[3]), Word(data[4], data[5]), data[6]);
    headerLen := 7;
    if hdr.sourceRoute {
      if |data| > headerLen + 1 && data[headerLen] == ROUTE_EXTENSION {
        var count: nat := data[headerLen + 1];
        var needed := headerLen + 2 + count * 2;
        if |data| < needed {
          return false, hdr, headerLen, route;
        }
        var offset := headerLen + 2;
        for i := 0 to count
          invariant offset == 9 + 2 * i
          invariant route == ReadWords(data, 9, i)
        {
          var hop := Word(data[offset], data[offset + 1]);
          offset := offset + 2;
          route := route + [hop];
        }
        headerLen := offset;
      }
    }
    ok := true;
  }

  // ---- the two are inverse, as far as the count octet reaches ------------------------

  /** The header of an outgoing frame: the flag is set exactly when there are hops. */
  function Outgoing(seqNum: byte, dst: word, src: word, radius: byte, route: seq<word>): Header {
    Header(false, route != [], seqNum, dst, src, radius)
  }

  lemma ControlRead(security: bool, sourceRoute: bool)
    ensures FrameControl(security, sourceRoute) % 2 == 1 <==> security
    ensures (FrameControl(security, sourceRoute) / 0x08) % 2 == 1 <==> sourceRoute
  {
  }

  lemma InFront(fixed: seq<byte>, rest: seq<byte>, i: nat)
    requires i < |fixed|
    ensures (fixed + rest)[i] == fixed[i]
  {
  }

  lemma FixedRead(h: Header, rest: seq<byte>)
    ensures FixedFields(Fixed(h) + rest) == h
  {
    hide FrameControl;
    var fixed := Fixed(h);
    ControlRead(h.security, h.sourceRoute);
    InFront(fixed, rest, 0);
    InFront(fixed, rest, 1);
    InFront(fixed, rest, 2);
    InFront(fixed, rest, 3);
    InFront(fixed, rest, 4);
    InFront(fixed, rest, 5);
    InFront(fixed, rest, 6);
  }

  lemma ParseWithoutRoute(payload: seq<byte>, h: Header)
    requires !h.sourceRoute
    ensures Parse(Build(payload, h, [])) == Some(Parsed(h, 7, []))
  {
    FixedRead(h, payload);
    assert Build(payload, h, []) == Fixed(h) + payload;
  }

  lemma ParseFrom(frame: seq<byte>, h: Header, ws: seq<word>)
    requires HopsEnd(|ws|) <= |frame| && frame[7] == ROUTE_EXTENSION && frame[8] == |ws|
    requires FixedFields(frame) == h && h.sourceRoute && ReadWords(frame, 9, |ws|) == ws
    ensures Parse(frame) == Some(Parsed(h, HopsEnd(|ws|), ws))
  {
    hide ReadWords;
  }

  lemma Regroup(fixed: seq<byte>, n: byte, words: seq<byte>, tail: seq<byte>)
    requires |fixed| == 7
    ensures var frame := fixed + ExtensionHead(n) + words + tail;
            && frame == fixed + (ExtensionHead(n) + words + tail)
            && frame[7] == ROUTE_EXTENSION && frame[8] == n
  {
  }

  lemma ParseHops(h: Header, ws: seq<word>, tail: seq<byte>)
    requires h.sourceRoute && |ws| <= 255
    ensures Parse(Fixed(h) + ExtensionHead(|ws|) + WordBytes(ws) + tail) == Some(Parsed(h, HopsEnd(|ws|), ws))
  {
    hide Parse, Fixed, FixedFields, WordBytes, ReadWords, HasExtension, ExtensionHead;
    var start := Fixed(h) + ExtensionHead(|ws|);
    var frame := start + WordBytes(ws) + tail;
    assert ReadWords(frame, 9, |ws|) == ws by { ReadWritten(start, ws, tail); }
    Regroup(Fixed(h), |ws|, WordBytes(ws), tail);
    FixedRead(h, ExtensionHead(|ws|) + WordBytes(ws) + tail);
    ParseFrom(frame, h, ws);
  }

  /** With hops, the parser reads as many as the count octet says and takes the rest for payload. */
  lemma ParseWithRoute(payload: seq<byte>, h: Header, route: seq<word>)
    requires h.sourceRoute && route != []
    ensures Parse(Build(payload, h, route)) ==
            Some(Parsed(h, HopsEnd(Truncate(|route|)), route[..Truncate(|route|)]))
  {
    hide Parse, Fixed, WordBytes, ExtensionHead;
    var n := Truncate(|route|);
    var tail := WordBytes(route[n..]) + payload;
    SplitWords(route, n);
    ParseHops(h, route[..n], tail);
    assert Build(payload, h, route) == Fixed(h) + ExtensionHead(n) + WordBytes(route[..n]) + tail;
  }

  lemma {:induction false} SplitWords(ws: seq<word>, n: nat)
    requires n <= |ws|
    ensures WordBytes(ws) == WordBytes(ws[..n]) + WordBytes(ws[n..])
    decreases |ws|
  {
    if n == |ws| {
      assert ws[..n] == ws;
    } else {
      var k := |ws| - 1;
      SplitWords(ws[..k], n);
      assert ws[..k][..n] == ws[..n] && ws[..k][n..] == ws[n..][..k - n];
    }
  }

  /** What was built is parsed back, hops, payload and all. */
  predicate Survives(payload: seq<byte>, h: Header, route: seq<word>) {
    var frame := Build(payload, h, route);
    var p := Parse(frame);
    p.Some? && p.value.hdr == h && p.value.route == route && frame[p.value.headerLen..] == payload
  }

  lemma PayloadAfter(payload: seq<byte>, h: Header, route: seq<word>)
    requires h.sourceRoute == (route != [])
    ensures var n := if route == [] then 7 else HopsEnd(|route|);
            n <= |Build(payload, h, route)| && Build(payload, h, route)[n..] == payload
  {
    hide Fixed, WordBytes;
    if route == [] {
      assert Build(payload, h, route) == Fixed(h) + payload;
    } else {
      assert Build(payload, h, route) == (Fixed(h) + Extension(route)) + payload;
    }
  }

  /** Outgoing frames survive the wire exactly while the hop count fits its octet. */
  lemma SurvivesIff(payload: seq<byte>, seqNum: byte, dst: word, src: word, radius: byte, route: seq<word>)
    ensures Survives(payload, Outgoing(seqNum, dst, src, radius, route), route) <==> |route| <= 255
  {
    hide Parse, Build;
    var h := Outgoing(seqNum, dst, src, radius, route);
    PayloadAfter(payload, h, route);
    if route == [] {
      ParseWithoutRoute(payload, h);
    } else {
      ParseWithRoute(payload, h, route);
      if |route| <= 255 {
        assert route[..|route|] == route;
      }
    }
  }
}
