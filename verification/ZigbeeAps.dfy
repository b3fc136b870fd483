/**
 The application support layer: six header octets around the payload, sent over a network
 layer, and the indication a received payload leads to.
 */
module Aps {
  import opened Bytes
  import opened NwkFrame
  import opened NwkModel
  import opened NwkLayer
  import opened NwkProperties
  import opened NwkFrames

  const APS_SECURITY: byte := 0x40
  const APS_COUNTER: byte := 0x22
  const LINK_EXT := 0x1122334455667788

  /** One call of the indication callback. */
  datatype Indication = Indication(dstEp: byte, cluster: word, payload: seq<byte>, src: word, srcEp: byte)

  function ApsFrame(cluster: word, payload: seq<byte>, srcEp: byte, dstEp: byte, security: bool): seq<byte> {
    [if security then APS_SECURITY else 0, APS_COUNTER, dstEp, Lo(cluster), Hi(cluster), srcEp] + payload
  }

  /** sendApsData: nothing without a link key when security is asked for; the encryption stub copies. */
  function SendAps(st: State, running: bool, linkKey: bool, dst: word, frame: seq<byte>, security: bool): Effect {
    if !running || (security && !linkKey) then Unchanged(st) else Send(st, frame, dst, 0)
  }

  /** What sendApsData returns: past the checks, the answer of the MAC to a frame that has somewhere to go. */
  predicate Sent(st: State, running: bool, linkKey: bool, dst: word, security: bool, macAccepts: bool) {
    running && (security ==> linkKey) && Joined(st) && (dst == BROADCAST || HasRoute(st, dst)) && macAccepts
  }

  /** handleNwkPayload: payloads shorter than the header lead to nothing. */
  function Indicate(p: seq<byte>, src: word): seq<Indication> {
    if |p| < 6 then [] else [Indication(p[2], Word(p[3], p[4]), p[6..], src, p[5])]
  }

  class ZigbeeAps {
    const nwk: ZigbeeNwk
    var running: bool
    var callbackSet: bool
    /** The extended addresses the security manager holds a link key for. */
    var linkKeys: set<int>
    ghost var indications: seq<Indication>

    constructor (nwk: ZigbeeNwk)
      ensures this.nwk == nwk && !running && !callbackSet && linkKeys == {} && indications == []
    {
      this.nwk := nwk;
      running, callbackSet, linkKeys, indications := false, false, {}, [];
    }

    method SetLinkKey(ext: int)
      modifies this`linkKeys
      ensures linkKeys == old(linkKeys) + {ext}
    {
      linkKeys := linkKeys + {ext};
    }

    method SetApsIndicationCallback(present: bool)
      modifies this`callbackSet
      ensures callbackSet == present
    {
      callbackSet := present;
    }

    /** Registers with the network layer and starts it. */
    method Start()
      modifies this`running, nwk
      ensures running
      ensures nwk.Model() ==
              if old(running) then old(nwk.Model()) else old(nwk.Model()).(callback := true, running := true)
      ensures nwk.emitted == old(nwk.emitted)
    {
      if !running {
        running := true;
        nwk.SetNwkPayloadCallback(true);
        nwk.Start();
      }
    }

    method SendApsData(dst: word, cluster: word, payload: seq<byte>, srcEp: byte, dstEp: byte, security: bool)
      returns (ok: bool)
      modifies nwk
      ensures var e := SendAps(old(nwk.Model()), running, 0x1122334455667788 in linkKeys, dst,
                               ApsFrame(cluster, payload, srcEp, dstEp, security), security);
              && nwk.Model() == e.state
              && nwk.emitted == old(nwk.emitted) + e.frames
              && nwk.requests == old(nwk.requests) + e.requests
              && nwk.delivered == old(nwk.delivered) + e.ups
      ensures ok == Sent(old(nwk.Model()), running, 0x1122334455667788 in linkKeys, dst, security, nwk.macAccepts)
      ensures nwk.macAccepts == old(nwk.macAccepts)
    {
      hide Send;
      if !running {
        return false;
      }
      var frameCtrl: byte := if security then APS_SECURITY else 0;
      var apsFrame := [frameCtrl];
      apsFrame := apsFrame + [APS_COUNTER];
      apsFrame := apsFrame + [dstEp];
      apsFrame := apsFrame + [Lo(cluster)] + [Hi(cluster)];
      apsFrame := apsFrame + [srcEp];
      apsFrame := apsFrame + payload;
      assert apsFrame == ApsFrame(cluster, payload, srcEp, dstEp, security);
      if security {
        if LINK_EXT !in linkKeys {
          return false;
        }
        var cipher := apsFrame;
        apsFrame := cipher;
      }
      ok := nwk.SendNwkFrame(apsFrame, dst, 0);
    }

    method HandleNwkPayload(nwkPayload: seq<byte>, src: word, dst: word)
      modifies this`indications
      ensures indications == old(indications) + (if callbackSet then Indicate(nwkPayload, src) else [])
    {
      if |nwkPayload| < 6 {
        return;
      }
      var dstEp := nwkPayload[2];
      var cluster := Word(nwkPayload[3], nwkPayload[4]);
      var srcEp := nwkPayload[5];
      var appPayload := nwkPayload[6..];
      if callbackSet {
        indications := indications + [Indication(dstEp, cluster, appPayload, src, srcEp)];
      }
    }
  }

  // ---- by octets and fields ------------------------------------------------------------

  /** The six octets in front of a payload, the security bit first. */
  lemma ApsFrameByOctets(cluster: word, payload: seq<byte>, srcEp: byte, dstEp: byte, security: bool)
    ensures var f := ApsFrame(cluster, payload, srcEp, dstEp, security);
            && |f| == 6 + |payload| && f[6..] == payload
            && f[0] == (if security then 0x40 else 0x00) && f[1] == 0x22
            && f[2] == dstEp && Word(f[3], f[4]) == cluster && f[5] == srcEp
  {
  }

  /** What a receiver takes the octets for, whatever the first two are. */
  lemma IndicatedByOctets(p: seq<byte>, src: word)
    ensures |p| < 6 ==> Indicate(p, src) == []
    ensures |p| >= 6 ==>
              var out := Indicate(p, src);
              && |out| == 1 && out[0].dstEp == p[2] && out[0].cluster == Word(p[3], p[4]) && out[0].srcEp == p[5]
              && out[0].payload == p[6..] && out[0].src == src
  {
  }

  /** A stopped layer, or one without the link key of a secured frame, emits nothing; any other hands the frame on. */
  lemma SendApsEffect(st: State, running: bool, linkKey: bool, dst: word, frame: seq<byte>, security: bool,
                      macAccepts: bool)
    ensures var e := SendAps(st, running, linkKey, dst, frame, security);
            if running && (linkKey || !security) then e == Send(st, frame, dst, 0)
            else e.state == st && e.frames == [] && e.requests == [] && e.ups == []
    ensures Sent(st, running, linkKey, dst, security, macAccepts) <==>
            && running && (linkKey || !security) && macAccepts
            && st.running && st.own != 0xFFFF && (dst == 0xFFFF || (dst in st.routes && st.routes[dst].state.ACTIVE?))
  {
    hide Send;
  }

  // ---- one hop ---------------------------------------------------------------------

  lemma IndicateFrame(cluster: word, payload: seq<byte>, srcEp: byte, dstEp: byte, security: bool, src: word)
    ensures Indicate(ApsFrame(cluster, payload, srcEp, dstEp, security), src) ==
            [Indication(dstEp, cluster, payload, src, srcEp)]
    ensures !IsCommand(ApsFrame(cluster, payload, srcEp, dstEp, security))
  {
  }

  lemma ForwardDeliversNothing(st: State, p: Parsed, frame: seq<byte>)
    ensures Forward(st, p, frame).ups == []
  {
    hide Build, Outgoing;
  }

  lemma InboundOf(st: State, frame: seq<byte>, h: Header, route: seq<word>, payload: seq<byte>,
                  rssi: int, lqi: byte, now: int)
    requires ReadsAs(frame, h, route, payload) && payload != [] && !IsCommand(payload)
    ensures Inbound(st, frame, rssi, lqi, now).ups ==
            if st.callback && (h.dst == st.own || h.dst == BROADCAST) then [Delivery(payload, h.src, h.dst)] else []
    ensures h.dst == st.own || h.dst == BROADCAST ==>
              Inbound(st, frame, rssi, lqi, now) ==
              Effect(Heard(st, h.src, rssi, lqi, now), [], [], Inbound(st, frame, rssi, lqi, now).ups)
  {
    hide Forward, Parse, IsCommand, Heard;
    var p := Parse(frame).value;
    ForwardDeliversNothing(Heard(st, h.src, rssi, lqi, now), p, frame);
    HeardSame(st, h.src, rssi, lqi, now);
  }

  lemma HeardSame(st: State, addr: word, rssi: int, lqi: byte, now: int)
    ensures Heard(st, addr, rssi, lqi, now).own == st.own
    ensures Heard(st, addr, rssi, lqi, now).callback == st.callback
    ensures Heard(st, addr, rssi, lqi, now).routes == st.routes
  {
  }

  /**
   What an application hands to sendApsData reaches the indication of a peer that hears the
   frame exactly if the peer has its callback registered and is the destination, or the frame
   is broadcast: same endpoints, cluster and payload, and the sender's address.
   */
  lemma SingleHopDelivery(a: State, b: State, dst: word, cluster: word, payload: seq<byte>, srcEp: byte, dstEp: byte,
                          security: bool, rssi: int, lqi: byte, now: int)
    requires Inv(a) && Joined(a) && (dst == BROADCAST || HasRoute(a, dst))
    ensures var frame := ApsFrame(cluster, payload, srcEp, dstEp, security);
            var sent := SendAps(a, true, true, dst, frame, security);
            && |sent.frames| == 1
            && (var ups := Inbound(b, sent.frames[0], rssi, lqi, now).ups;
                if b.callback && (dst == b.own || dst == BROADCAST)
                then |ups| == 1 && Indicate(ups[0].payload, ups[0].src) ==
                                   [Indication(dstEp, cluster, payload, a.own, srcEp)]
                else ups == [])
  {
    hide Inbound, ReadsAs, Indicate, ApsFrame, IsCommand, Build;
    var frame := ApsFrame(cluster, payload, srcEp, dstEp, security);
    ApsFrameNotEmpty(cluster, payload, srcEp, dstEp, security);
    IndicateFrame(cluster, payload, srcEp, dstEp, security, a.own);
    TransmitSurvives(a, frame, dst, 0);
    InboundOf(b, Transmit(a, frame, dst, 0).frames[0], Outgoing(a.seqNum, dst, a.own, RadiusOr(0), RouteTo(a, dst)),
              RouteTo(a, dst), frame, rssi, lqi, now);
  }

  lemma ApsFrameNotEmpty(cluster: word, payload: seq<byte>, srcEp: byte, dstEp: byte, security: bool)
    ensures ApsFrame(cluster, payload, srcEp, dstEp, security) != []
  {
  }
}
