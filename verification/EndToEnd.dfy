/**
 From one node's applications to another's: a sender's APS and NWK layers, a radio that reports
 what it hears over the serial link, and the receiving host's link, NWK and APS layers.
 */
module EndToEnd {
  import opened Bytes
  import opened Deframer
  import opened RawSpinel
  import opened NwkFrame
  import opened NwkModel
  import opened NwkProperties
  import opened NwkFrames
  import opened Aps

  /** One application message, and how the radio of the receiver tags the frame it arrives in. */
  datatype Message = Message(dst: word, cluster: word, payload: seq<byte>, srcEp: byte, dstEp: byte, security: bool,
                             spinelHeader: byte, rssi: int8, lqi: byte)

  function FrameOf(m: Message): seq<byte> { ApsFrame(m.cluster, m.payload, m.srcEp, m.dstEp, m.security) }

  /** The sender after the messages, and the frames it put on the air. */
  function SendAll(a: State, ms: seq<Message>): Effect {
    if ms == [] then Unchanged(a)
    else
      var before := SendAll(a, ms[..|ms| - 1]);
      var m := ms[|ms| - 1];
      var last := SendAps(before.state, true, true, m.dst, FrameOf(m), m.security);
      Effect(last.state, before.frames + last.frames, before.requests + last.requests, before.ups + last.ups)
  }

  /** What the receiver's radio reports for those frames. */
  function Tagged(frames: seq<seq<byte>>, ms: seq<Message>): (rs: seq<Reception>)
    ensures |rs| == if |frames| < |ms| then |frames| else |ms|
  {
    var n := if |frames| < |ms| then |frames| else |ms|;
    seq(n, i requires 0 <= i < n => Reception(ms[i].spinelHeader, frames[i], ms[i].rssi, ms[i].lqi))
  }

  /** The receiving layers above the link: each raw frame goes through NWK, its deliveries through APS. */
  datatype Host = Host(nwk: State, indications: seq<Indication>)

  function IndicateAll(ups: seq<Delivery>): seq<Indication> {
    if ups == [] then [] else IndicateAll(ups[..|ups| - 1]) + Indicate(ups[|ups| - 1].payload, ups[|ups| - 1].src)
  }

  function Accept(host: Host, call: HandlerCall, now: int): Host {
    match call
    case RawFrame(frame, rssi, lqi) =>
      var e := Inbound(host.nwk, frame, rssi, lqi, now);
      Host(e.state, host.indications + IndicateAll(e.ups))
    case PropertyEvent(_, _) => host
  }

  /** The callbacks of the link handed up in order, at the given times. */
  function AcceptAll(b: State, calls: seq<HandlerCall>, times: seq<int>): Host
    requires |times| == |calls|
  {
    if calls == [] then Host(b, [])
    else
      var k := |calls| - 1;
      Accept(AcceptAll(b, calls[..k], times[..k]), calls[k], times[k])
  }

  function Expected(own: word, ms: seq<Message>): (all: seq<Indication>)
    ensures |all| == |ms|
  {
    seq(|ms|, i requires 0 <= i < |ms| => Indication(ms[i].dstEp, ms[i].cluster, ms[i].payload, own, ms[i].srcEp))
  }

  /** Every message is for the receiver or for everyone, and the sender has a route where it needs one. */
  ghost predicate Deliverable(a: State, b: word, ms: seq<Message>) {
    forall i :: 0 <= i < |ms| ==>
      (ms[i].dst == BROADCAST || (ms[i].dst == b && HasRoute(a, ms[i].dst)))
  }

  lemma SendOne(a: State, m: Message)
    requires Inv(a) && Joined(a) && (m.dst == BROADCAST || HasRoute(a, m.dst))
    ensures var e := SendAps(a, true, true, m.dst, FrameOf(m), m.security);
            && |e.frames| == 1
            && e.state == a.(seqNum := e.state.seqNum)
            && ReadsAs(e.frames[0], Outgoing(a.seqNum, m.dst, a.own, RadiusOr(0), RouteTo(a, m.dst)),
                       RouteTo(a, m.dst), FrameOf(m))
  {
    hide ReadsAs, FrameOf, Build;
    TransmitSurvives(a, FrameOf(m), m.dst, 0);
  }

  lemma AcceptOne(host: Host, a: State, m: Message, frame: seq<byte>, route: seq<word>, rssi: int, lqi: byte, now: int)
    requires host.nwk.callback && (m.dst == host.nwk.own || m.dst == BROADCAST)
    requires ReadsAs(frame, Outgoing(a.seqNum, m.dst, a.own, RadiusOr(0), route), route, FrameOf(m))
    ensures var host' := Accept(host, RawFrame(frame, rssi, lqi), now);
            && host'.nwk.callback && host'.nwk.own == host.nwk.own
            && host'.indications ==
               host.indications + [Indication(m.dstEp, m.cluster, m.payload, a.own, m.srcEp)]
  {
    hide Inbound, ReadsAs, Indicate, ApsFrame, IsCommand, Heard;
    ApsFrameNotEmpty(m.cluster, m.payload, m.srcEp, m.dstEp, m.security);
    IndicateFrame(m.cluster, m.payload, m.srcEp, m.dstEp, m.security, a.own);
    InboundOf(host.nwk, frame, Outgoing(a.seqNum, m.dst, a.own, RadiusOr(0), route), route, FrameOf(m), rssi, lqi, now);
    HeardSame(host.nwk, a.own, rssi, lqi, now);
    var ups := Inbound(host.nwk, frame, rssi, lqi, now).ups;
    assert ups[..0] == [];
    assert IndicateAll(ups) == [] + Indicate(ups[0].payload, ups[0].src);
  }

  lemma {:induction false} AllAccepted(a: State, b: State, ms: seq<Message>, times: seq<int>)
    requires Inv(a) && Joined(a) && b.callback && Deliverable(a, b.own, ms) && |times| == |ms|
    ensures var sent := SendAll(a, ms);
            && |sent.frames| == |ms|
            && sent.state == a.(seqNum := sent.state.seqNum)
            && (var host := AcceptAll(b, Received(Tagged(sent.frames, ms)), times);
                host.indications == Expected(a.own, ms) && host.nwk.callback && host.nwk.own == b.own)
  {
    hide Inv, ReadsAs, Accept, FrameOf, SendAps, HasRoute, Joined, RouteTo, Expected, Tagged, Received;
    if ms == [] {
      NothingExpected(a.own);
    } else {
      var k := |ms| - 1;
      var m := ms[k];
      var before := SendAll(a, ms[..k]);
      AllAccepted(a, b, ms[..k], times[..k]);
      SameRoutes(a, before.state, m.dst);
      SendOne(before.state, m);
      var sent := SendAll(a, ms);
      LastTagged(before.frames, sent.frames[k], ms);
      assert sent.frames == before.frames + [sent.frames[k]];
      var calls := Received(Tagged(sent.frames, ms));
      assert AcceptAll(b, calls, times) == Accept(AcceptAll(b, calls[..k], times[..k]), calls[k], times[k]);
      AcceptOne(AcceptAll(b, Received(Tagged(before.frames, ms[..k])), times[..k]), before.state, m, sent.frames[k],
                RouteTo(before.state, m.dst), m.rssi, m.lqi, times[k]);
      LastExpected(a.own, ms);
    }
  }

  lemma NothingExpected(own: word)
    ensures Expected(own, []) == []
  {
  }

  lemma LastExpected(own: word, ms: seq<Message>)
    requires ms != []
    ensures var m := ms[|ms| - 1];
            Expected(own, ms) ==
            Expected(own, ms[..|ms| - 1]) + [Indication(m.dstEp, m.cluster, m.payload, own, m.srcEp)]
  {
  }

  lemma LastTagged(frames: seq<seq<byte>>, frame: seq<byte>, ms: seq<Message>)
    requires |frames| + 1 == |ms|
    ensures var k := |frames|;
            var calls := Received(Tagged(frames + [frame], ms));
            && |calls| == k + 1
            && calls[..k] == Received(Tagged(frames, ms[..k]))
            && calls[k] == RawFrame(frame, ms[k].rssi, ms[k].lqi)
  {
  }

  lemma SameRoutes(a: State, a': State, dst: word)
    requires a' == a.(seqNum := a'.seqNum)
    ensures Inv(a) == Inv(a') && Joined(a) == Joined(a') && HasRoute(a, dst) == HasRoute(a', dst)
  {
  }

  /**
   Messages sent one after another, reported by the receiver's radio over the serial link in
   whatever pieces the port returns, are indicated to the receiving applications exactly as
   sent and in order.
   */
  lemma MessagesArrive(a: State, b: State, ms: seq<Message>, chunks: seq<seq<byte>>, times: seq<int>, event: bool)
    requires Inv(a) && Joined(a) && b.callback && Deliverable(a, b.own, ms) && |times| == |ms|
    requires Flatten(chunks) == EncodeAll(Reports(Tagged(SendAll(a, ms).frames, ms)))
    ensures var calls := DispatchAll(Payloads(RunChunks(START, chunks).bodies), true, event);
            && |calls| == |ms|
            && AcceptAll(b, calls, times).indications == Expected(a.own, ms)
  {
    hide AcceptAll, Inv, Joined, Deliverable, SendAll, DispatchAll, Payloads, RunChunks, EncodeAll, Reports, Tagged;
    AllAccepted(a, b, ms, times);
    ReceptionsArrive(Tagged(SendAll(a, ms).frames, ms), chunks, event);
  }
}
