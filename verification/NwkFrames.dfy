/**
 The frames a run of the network layer puts on the air: how many, how numbered, and that a
 peer can take each of them apart again.
 */
module NwkFrames {
  import opened Bytes
  import opened NwkFrame
  import opened NwkModel
  import opened NwkProperties

  /** The frame a peer parses to this header, these hops and this payload. */
  predicate ReadsAs(frame: seq<byte>, h: Header, route: seq<word>, payload: seq<byte>) {
    Parse(frame).Some? && Parse(frame).value.hdr == h && Parse(frame).value.route == route &&
    frame[Parse(frame).value.headerLen..] == payload
  }

  /** A frame of this node under this number, readable by any peer. */
  ghost predicate Legible(frame: seq<byte>, own: word, seqNum: byte) {
    exists dst: word, radius: byte, route: seq<word>, payload: seq<byte> ::
      radius > 0 && |route| <= 255 && ReadsAs(frame, Outgoing(seqNum, dst, own, radius, route), route, payload)
  }

  lemma TransmitSurvives(st: State, payload: seq<byte>, dst: word, radius: byte)
    requires Inv(st)
    ensures var f := Transmit(st, payload, dst, radius).frames[0];
            ReadsAs(f, Outgoing(st.seqNum, dst, st.own, RadiusOr(radius), RouteTo(st, dst)), RouteTo(st, dst), payload)
  {
    hide Parse, Build;
    var route := RouteTo(st, dst);
    assert |route| <= 255 by {
      if dst != BROADCAST && HasRoute(st, dst) {
        assert AtRest(dst, st.routes[dst]);
      }
    }
    SurvivesIff(payload, st.seqNum, dst, st.own, RadiusOr(radius), route);
  }

  /** What one step emits: nothing, or one legible frame that uses up one number. */
  ghost predicate EmitsOne(st: State, e: Effect) {
    e.state.own == st.own &&
    ((e.frames == [] && e.state.seqNum == st.seqNum) ||
     (|e.frames| == 1 && Legible(e.frames[0], st.own, st.seqNum) && e.state.seqNum == (st.seqNum + 1) % 0x100))
  }

  lemma TransmitEmits(st: State, payload: seq<byte>, dst: word, radius: byte)
    requires Inv(st)
    ensures EmitsOne(st, Transmit(st, payload, dst, radius))
  {
    hide ReadsAs;
    TransmitSurvives(st, payload, dst, radius);
    RouteFits(st, dst);
  }

  lemma RouteFits(st: State, dst: word)
    requires Inv(st)
    ensures |RouteTo(st, dst)| <= 255
  {
    if dst != BROADCAST && HasRoute(st, dst) {
      assert AtRest(dst, st.routes[dst]);
    }
  }

  lemma BroadcastEmits(st: State, payload: seq<byte>, radius: byte)
    requires Inv(st)
    ensures EmitsOne(st, Broadcast(st, payload, radius))
  {
    hide Transmit, Legible;
    TransmitEmits(st, payload, BROADCAST, radius);
  }

  lemma SendEmits(st: State, payload: seq<byte>, dst: word, radius: byte)
    requires Inv(st)
    ensures EmitsOne(st, Send(st, payload, dst, radius))
  {
    hide Transmit, Legible, Broadcast;
    TransmitEmits(st, payload, dst, radius);
    if dst in st.routes {
      assert AtRest(dst, st.routes[dst]);
    } else {
      var st' := st.(routes := st.routes[dst := ASKED]);
      BroadcastEmits(st', RouteRequest(1, dst), 0);
    }
  }

  lemma CommandEmits(st: State, h: Header, body: seq<byte>)
    requires Inv(st) && IsCommand(body)
    ensures EmitsOne(st, Command(st, h, body))
  {
    hide Legible, Broadcast, ReadWords;
    if IsManyToOne(body) {
      var st' := SetRoute(st, h.src, h.src, [], true);
      assert Inv(st');
      BroadcastEmits(st', body, 0);
    }
  }

  lemma ForwardEmits(st: State, p: Parsed, frame: seq<byte>)
    requires Inv(st)
    ensures EmitsOne(st, Forward(st, p, frame))
  {
    hide Legible, Send;
    if p.route != [] {
      var i := IndexOf(p.route, st.own);
      if i + 1 < |p.route| {
        SendEmits(st, frame, p.route[i + 1], 0);
      }
    } else if HasRoute(st, p.hdr.dst) {
      SendEmits(st, frame, st.routes[p.hdr.dst].nextHop, 0);
    }
  }

  lemma StepEmits(st: State, a: Action)
    requires Inv(st) && Enabled(st, a)
    ensures EmitsOne(st, Step(st, a))
  {
    hide Legible, Send, Broadcast, Parse, Command, Forward, IsCommand, LinkQualities;
    match a {
      case SendNwkFrame(payload, dst, radius) => SendEmits(st, payload, dst, radius);
      case ManyToOneDiscovery(radius) => SendEmits(st, [CMD_MTO_ROUTE_REQUEST, radius], BROADCAST, 0);
      case MacFrame(frame, rssi, lqi, now) =>
        if Parse(frame).Some? {
          var p := Parse(frame).value;
          var heard := Heard(st, p.hdr.src, rssi, lqi, now);
          var body := frame[p.headerLen..];
          if IsCommand(body) {
            CommandEmits(heard, p.hdr, body);
          } else if !(p.hdr.dst == st.own || p.hdr.dst == BROADCAST) {
            ForwardEmits(heard, p, frame);
          }
        }
      case SendLinkStatus(order) =>
        BroadcastEmits(st, [CMD_LINK_STATUS, Truncate(|st.neighbors|)] + LinkQualities(order, st.neighbors), 2);
      case _ =>
    }
  }

  /**
   In every run the k-th frame emitted is legible and carries the sequence number k mod 256;
   no step emits more than one.
   */
  lemma {:induction false} FramesAreNumbered(own: word, run: seq<Action>)
    requires Feasible(Initial(own), run)
    ensures var e := Run(Initial(own), run);
            && e.state.own == own
            && e.state.seqNum == |e.frames| % 0x100
            && |e.frames| <= |run|
            && forall k :: 0 <= k < |e.frames| ==> Legible(e.frames[k], own, k % 0x100)
  {
    hide Step, Enabled, Inv, Legible;
    InitialInv(own);
    if run != [] {
      var k := |run| - 1;
      FramesAreNumbered(own, run[..k]);
      RunKeepsInv(Initial(own), run[..k]);
      StepEmits(Run(Initial(own), run[..k]).state, run[k]);
    }
  }

  lemma NumberOf(frame: seq<byte>, own: word, seqNum: byte)
    requires Legible(frame, own, seqNum)
    ensures |frame| >= 7 && frame[1] == seqNum
  {
    hide HasExtension;
    var dst, radius, route, payload :| radius > 0 && |route| <= 255 &&
      ReadsAs(frame, Outgoing(seqNum, dst, own, radius, route), route, payload);
  }

  /** Any 256 frames emitted in a row carry different sequence numbers. */
  lemma NumbersDistinct(own: word, run: seq<Action>, i: nat, j: nat)
    requires Feasible(Initial(own), run)
    requires i < j < |Run(Initial(own), run).frames| && j - i < 0x100
    ensures var fs := Run(Initial(own), run).frames;
            |fs[i]| >= 7 && |fs[j]| >= 7 && fs[i][1] != fs[j][1]
  {
    hide Legible, Feasible, Run;
    FramesAreNumbered(own, run);
    var fs := Run(Initial(own), run).frames;
    NumberOf(fs[i], own, i % 0x100);
    NumberOf(fs[j], own, j % 0x100);
  }

  /**
   In every reachable state, a frame sent to a destination with a route, or broadcast, reads
   at the peer as the same addresses, radius, number, hops and payload.
   */
  lemma SentFrameReads(own: word, run: seq<Action>, payload: seq<byte>, dst: word, radius: byte)
    requires Feasible(Initial(own), run)
    ensures var st := Run(Initial(own), run).state;
            var e := Send(st, payload, dst, radius);
            Joined(st) && (dst == BROADCAST || HasRoute(st, dst)) ==>
              && |e.frames| == 1
              && ReadsAs(e.frames[0], Outgoing(st.seqNum, dst, own, RadiusOr(radius), RouteTo(st, dst)),
                         RouteTo(st, dst), payload)
  {
    hide ReadsAs, Feasible, Run;
    var st := Run(Initial(own), run).state;
    InitialInv(own);
    RunKeepsInv(Initial(own), run);
    FramesAreNumbered(own, run);
    TransmitSurvives(st, payload, dst, radius);
  }

  // ---- routes learnt from commands -----------------------------------------------------

  function RecordHead(count: byte): (bs: seq<byte>)
    ensures |bs| == 2
  {
    [CMD_ROUTE_RECORD, count]
  }

  /** A route record for these hops. */
  function RouteRecord(hops: seq<word>): seq<byte> { RecordHead(Truncate(|hops|)) + WordBytes(hops) }

  lemma RecordRead(hops: seq<word>)
    requires |hops| <= 255
    ensures IsCommand(RouteRecord(hops)) && IsRouteRecord(RouteRecord(hops)) && RecordedHops(RouteRecord(hops)) == hops
    ensures !IsManyToOne(RouteRecord(hops))
  {
    hide WordBytes, ReadWords;
    var body := RouteRecord(hops);
    assert body == RecordHead(|hops|) + WordBytes(hops) + [];
    ReadWritten(RecordHead(|hops|), hops, []);
  }

  lemma RecordStored(st: State, h: Header, hops: seq<word>)
    requires |hops| <= 255
    ensures IsCommand(RouteRecord(hops))
    ensures Command(st, h, RouteRecord(hops)) == Unchanged(SetRoute(st, h.src, h.src, hops, false))
  {
    hide RouteRecord, ReadWords, SetRoute;
    RecordRead(hops);
  }

  lemma ReadsAsBody(frame: seq<byte>, h: Header, route: seq<word>, body: seq<byte>, st: State,
                    rssi: int, lqi: byte, now: int)
    requires ReadsAs(frame, h, route, body) && IsCommand(body)
    ensures Inbound(st, frame, rssi, lqi, now) == Command(Heard(st, h.src, rssi, lqi, now), h, body)
  {
    hide Parse, IsCommand, Command;
  }

  /**
   The hops a node reports of itself in a route record are the hops a frame to that node is
   then sent with, and the hops the frame's reader finds in it.
   */
  lemma RecordedRouteTravels(st: State, frame: seq<byte>, h: Header, route: seq<word>, hops: seq<word>,
                             rssi: int, lqi: byte, now: int, payload: seq<byte>, radius: byte)
    requires Inv(st) && Joined(st) && |hops| <= 255 && h.src != BROADCAST
    requires ReadsAs(frame, h, route, RouteRecord(hops))
    ensures var after := Inbound(st, frame, rssi, lqi, now).state;
            var e := Send(after, payload, h.src, radius);
            && |e.frames| == 1
            && ReadsAs(e.frames[0], Outgoing(st.seqNum, h.src, st.own, RadiusOr(radius), hops), hops, payload)
  {
    hide ReadsAs, RouteRecord, IsCommand, Command, Inbound, Build;
    var heard := Heard(st, h.src, rssi, lqi, now);
    RecordStored(heard, h, hops);
    ReadsAsBody(frame, h, route, RouteRecord(hops), st, rssi, lqi, now);
    var after := SetRoute(heard, h.src, h.src, hops, false);
    assert Inv(after) by {
      forall d | d in after.routes ensures AtRest(d, after.routes[d]) {
        SetRouteMoves(heard, h.src, hops, false, d);
      }
    }
    TransmitSurvives(after, payload, h.src, radius);
  }

  /** After a many-to-one request, frames to its sender carry no hops. */
  lemma ManyToOneGoesDirect(st: State, frame: seq<byte>, h: Header, route: seq<word>, body: seq<byte>,
                            rssi: int, lqi: byte, now: int)
    requires h.src != BROADCAST && IsManyToOne(body) && ReadsAs(frame, h, route, body)
    ensures var after := Inbound(st, frame, rssi, lqi, now).state;
            HasRoute(after, h.src) && RouteTo(after, h.src) == [] && after.routes[h.src].manyToOne
  {
    hide ReadsAs;
    ReadsAsBody(frame, h, route, body, st, rssi, lqi, now);
    BroadcastMoves(SetRoute(Heard(st, h.src, rssi, lqi, now), h.src, h.src, [], true), body, 0);
  }
}
