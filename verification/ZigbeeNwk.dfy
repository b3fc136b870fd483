/**
 The network layer as the class that updates its tables in place. Each method is proved to
 compute the function of the same purpose in NwkModel.
 */
module NwkLayer {
  import opened Bytes
  import opened NwkFrame
  import opened NwkModel

  class ZigbeeNwk {
    const ownShortAddr: word
    const radius: byte := DEFAULT_RADIUS
    var running: bool
    var callbackSet: bool
    var routeTable: map<word, Route>
    var neighborTable: map<word, Neighbor>
    var sequenceNumber: byte
    /** What the MAC answers to a frame; it may change between steps. */
    var macAccepts: bool
    /** Frames handed to the MAC, destinations asked for, payloads passed upward. */
    ghost var emitted: seq<seq<byte>>
    ghost var requests: seq<word>
    ghost var delivered: seq<Delivery>

    ghost function Model(): State
      reads this
    {
      State(ownShortAddr, running, callbackSet, routeTable, neighborTable, sequenceNumber)
    }

    /** The fields after are those before changed by e. */
    twostate predicate Did(e: Effect)
      reads this
    {
      && Model() == e.state
      && emitted == old(emitted) + e.frames
      && requests == old(requests) + e.requests
      && delivered == old(delivered) + e.ups
      && macAccepts == old(macAccepts)
    }

    constructor (own: word)
      ensures Model() == Initial(own)
      ensures emitted == [] && requests == [] && delivered == []
    {
      ownShortAddr := own;
      running, callbackSet, macAccepts := false, false, true;
      routeTable, neighborTable, sequenceNumber := map[], map[], 0;
      emitted, requests, delivered := [], [], [];
    }

    method Start()
      modifies this
      ensures Did(Unchanged(old(Model()).(running := true)))
    {
      if !running {
        running := true;
      }
    }

    method Stop()
      modifies this
      ensures Did(Unchanged(old(Model()).(running := false)))
    {
      if running {
        running := false;
      }
    }

    method SetNwkPayloadCallback(present: bool)
      modifies this
      ensures Did(Unchanged(old(Model()).(callback := present)))
    {
      callbackSet := present;
    }

    method LookupRoute(dst: word) returns (found: bool, nextHop: word, useSourceRoute: bool)
      ensures found <==> dst in routeTable && routeTable[dst].state.ACTIVE?
      ensures found ==> nextHop == routeTable[dst].nextHop && useSourceRoute == (routeTable[dst].sourceRoute != [])
    {
      found, nextHop, useSourceRoute := false, dst, false;
      if dst !in routeTable {
        return;
      }
      var r := routeTable[dst];
      if r.state != ACTIVE {
        return;
      }
      useSourceRoute := r.sourceRoute != [];
      nextHop := r.nextHop;
      found := true;
    }

    method SendNwkFrame(payload: seq<byte>, dst: word, radius: byte) returns (ok: bool)
      modifies this
      ensures Did(Send(old(Model()), payload, dst, radius))
      ensures ok <==> old(running) && ownShortAddr != 0xFFFF && macAccepts &&
                      (dst == 0xFFFF || (dst in old(routeTable) && old(routeTable)[dst].state.ACTIVE?))
      decreases if dst == BROADCAST then 0 else 2
    {
      hide Build, Outgoing;
      if !running {
        return false;
      }
      if ownShortAddr == BROADCAST {
        return false;
      }
      var nextHop := dst;
      var useSrcRoute := false;
      if dst != BROADCAST {
        var found, hop, useSource := LookupRoute(dst);
        if !found {
          var started := InitiateRouteDiscovery(dst);
          return false;
        }
        nextHop, useSrcRoute := hop, useSource;
      }
      var routePath: seq<word> := [];
      if useSrcRoute {
        if dst in routeTable && routeTable[dst].sourceRoute != [] {
          routePath := routeTable[dst].sourceRoute;
        }
      }
      assert routePath == RouteTo(Model(), dst);
      var r := if radius == 0 then this.radius else radius;
      var nwkFrame := BuildNwkFrame(payload, dst, ownShortAddr, r, sequenceNumber, false, routePath != [], routePath);
      OutgoingIs(sequenceNumber, dst, ownShortAddr, r, routePath);
      sequenceNumber := (sequenceNumber + 1) % 0x100;
      emitted := emitted + [nwkFrame];
      return macAccepts;
    }

    method InitiateRouteDiscovery(dst: word) returns (ok: bool)
      modifies this
      ensures Did(Discover(old(Model()), dst))
      ensures ok <==> old(Searching(Model(), dst)) || (old(running) && ownShortAddr != 0xFFFF && macAccepts)
      decreases 1
    {
      hide Transmit;
      if dst !in routeTable {
        routeTable := routeTable[dst := BLANK];
      }
      var entry := routeTable[dst];
      if entry.state == DISCOVERY_IN_PROGRESS || entry.state == REPAIR_IN_PROGRESS {
        return true;
      }
      entry := entry.(state := DISCOVERY_IN_PROGRESS);
      entry := entry.(discoverySeq := (entry.discoverySeq + 1) % 0x100);
      routeTable := routeTable[dst := entry];
      assert routeTable == old(routeTable)[dst := entry];
      var rr := [CMD_ROUTE_REQUEST];
      rr := rr + [entry.discoverySeq];
      rr := rr + [Lo(dst)] + [Hi(dst)];
      assert rr == RouteRequest(entry.discoverySeq, dst);
      requests := requests + [dst];
      BroadcastIsSend(Model(), rr);
      ok := SendNwkFrame(rr, BROADCAST, 0);
    }

    method RepairRoute(dst: word) returns (ok: bool)
      modifies this
      ensures Did(Unchanged(Repair(old(Model()), dst)))
      ensures ok <==> dst in old(routeTable)
    {
      if dst !in routeTable {
        return false;
      }
      routeTable := routeTable[dst := routeTable[dst].(state := REPAIR_IN_PROGRESS)];
      ok := InitiateRouteDiscovery(dst);
    }

    method InitiateManyToOneDiscovery(radius: byte) returns (ok: bool)
      modifies this
      ensures Did(Send(old(Model()), [CMD_MTO_ROUTE_REQUEST, radius], BROADCAST, 0))
      ensures ok <==> old(running) && ownShortAddr != 0xFFFF && macAccepts
    {
      var payload := [CMD_MTO_ROUTE_REQUEST];
      payload := payload + [radius];
      assert payload == [CMD_MTO_ROUTE_REQUEST, radius];
      ok := SendNwkFrame(payload, BROADCAST, 0);
    }

    method StoreRoute(dst: word, nextHop: word, hops: seq<word>, mto: bool)
      modifies this
      ensures Did(Unchanged(SetRoute(old(Model()), dst, nextHop, hops, mto)))
    {
      if dst !in routeTable {
        routeTable := routeTable[dst := BLANK];
      }
      var r := routeTable[dst];
      r := r.(destination := dst);
      r := r.(nextHop := nextHop);
      r := r.(state := ACTIVE);
      r := r.(sourceRoute := hops);
      r := r.(manyToOne := mto);
      routeTable := routeTable[dst := r];
      assert routeTable == old(routeTable)[dst := r];
    }

    method UpdateNeighbor(shortAddr: word, extAddr: nat, rssi: int, lqi: byte, now: int)
      modifies this
      ensures Did(Unchanged(Learnt(old(Model()), shortAddr, extAddr, rssi, lqi, now)))
    {
      var nbr := if shortAddr in neighborTable then neighborTable[shortAddr] else Neighbor(0, 0, 0, 0, 0);
      nbr := nbr.(shortAddr := shortAddr);
      if extAddr != 0 {
        nbr := nbr.(extAddr := extAddr);
      }
      nbr := nbr.(lastRssi := rssi);
      nbr := nbr.(linkQuality := lqi);
      nbr := nbr.(lastHeard := now);
      neighborTable := neighborTable[shortAddr := nbr];
    }

    method HandleManyToOneRequest(hdr: Header, body: seq<byte>)
      modifies this
      ensures Did(ManyToOne(old(Model()), hdr, body))
    {
      hide Transmit, SetRoute;
      if |body| < 2 {
        return;
      }
      StoreRoute(hdr.src, hdr.src, [], true);
      if hdr.radius > 1 {
        BroadcastIsSend(Model(), body);
        var _ := SendNwkFrame(body, BROADCAST, 0);
      }
    }

    method HandleRouteRecord(hdr: Header, body: seq<byte>)
      modifies this
      ensures Did(Unchanged(Record(old(Model()), hdr, body)))
    {
      hide SetRoute;
      if |body| < 2 {
        return;
      }
      var count: nat := body[1];
      if |body| < 2 + count * 2 {
        return;
      }
      var path: seq<word> := [];
      var p := 2;
      for i := 0 to count
        invariant p == 2 + 2 * i
        invariant path == ReadWords(body, 2, i)
      {
        var hop := Word(body[p], body[p + 1]);
        p := p + 2;
        path := path + [hop];
      }
      StoreRoute(hdr.src, hdr.src, path, false);
    }

    method HandleRouteError(hdr: Header, body: seq<byte>)
      modifies this
      ensures Did(Unchanged(RouteError(old(Model()), body)))
    {
      if |body| < 5 {
        return;
      }
      var origin := Word(body[1], body[2]);
      var broken := Word(body[3], body[4]);
      if origin == ownShortAddr {
        if broken in routeTable {
          routeTable := routeTable[broken := routeTable[broken].(state := FAILED)];
          var _ := RepairRoute(broken);
          assert routeTable == old(routeTable)[broken := old(routeTable)[broken].(state := REPAIR_IN_PROGRESS)];
        }
      }
    }

    method HandleCommand(hdr: Header, body: seq<byte>)
      requires IsCommand(body)
      modifies this
      ensures Did(Command(old(Model()), hdr, body))
    {
      hide ManyToOne, Record, RouteError;
      if body[0] == CMD_MTO_ROUTE_REQUEST {
        HandleManyToOneRequest(hdr, body);
      } else if body[0] == CMD_ROUTE_RECORD {
        HandleRouteRecord(hdr, body);
      } else if body[0] == CMD_ROUTE_ERROR {
        HandleRouteError(hdr, body);
      }
    }

    method ForwardFrame(hdr: Header, headerLen: nat, srcRoute: seq<word>, macPayload: seq<byte>)
      modifies this
      ensures Did(Forward(old(Model()), Parsed(hdr, headerLen, srcRoute), macPayload))
    {
      hide Send, Repair;
      if srcRoute != [] {
        var it := IndexOf(srcRoute, ownShortAddr);
        if it != |srcRoute| && it + 1 != |srcRoute| {
          var nextHop := srcRoute[it + 1];
          var _ := SendNwkFrame(macPayload, nextHop, 0);
        }
      } else {
        var found, nextHop, useSrcRoute := LookupRoute(hdr.dst);
        if found {
          var _ := SendNwkFrame(macPayload, nextHop, 0);
        } else {
          var _ := RepairRoute(hdr.dst);
        }
      }
    }

    method HandleInboundMacFrame(macFrame: seq<byte>, rssi: int, lqi: byte, now: int)
      modifies this
      ensures Did(Inbound(old(Model()), macFrame, rssi, lqi, now))
    {
      hide Parse, Forward, Command, Learnt, IsCommand;
      var macPayload := macFrame;
      var ok, hdr, headerLen, srcRoute := ParseNwkHeader(macPayload);
      if !ok {
        return;
      }
      UpdateNeighbor(hdr.src, 0, rssi, lqi, now);
      var body := macPayload[headerLen..];
      IsCommandIs(body);
      if headerLen < |macPayload| {
        if CMD_ROUTE_REQUEST <= body[0] <= CMD_LINK_STATUS {
          HandleCommand(hdr, body);
          return;
        }
      }
      if hdr.dst == ownShortAddr || hdr.dst == BROADCAST {
        if callbackSet && headerLen < |macPayload| {
          delivered := delivered + [Delivery(body, hdr.src, hdr.dst)];
        }
      } else {
        ForwardFrame(hdr, headerLen, srcRoute, macPayload);
      }
    }

    /** The container yields its keys in some order, each once; the order is not specified. */
    method SendLinkStatus() returns (order: seq<word>)
      modifies this
      ensures Enumerates(order, old(neighborTable.Keys))
      ensures Did(LinkStatus(old(Model()), order))
    {
      hide Transmit;
      var payload := [CMD_LINK_STATUS];
      payload := payload + [Truncate(|neighborTable|)];
      ghost var start := payload;
      order := [];
      var left := neighborTable.Keys;
      while left != {}
        invariant left <= neighborTable.Keys
        invariant Enumerates(order, neighborTable.Keys - left)
        invariant payload == start + LinkQualities(order, neighborTable)
        invariant Model() == old(Model()) && unchanged(this)
        decreases |left|
      {
        var nbr :| nbr in left;
        assert nbr !in order;
        LinkQualitiesSnoc(order, nbr, neighborTable);
        payload := payload + [Lo(nbr)] + [Hi(nbr)] + [neighborTable[nbr].linkQuality];
        order := order + [nbr];
        left := left - {nbr};
      }
      assert payload == [CMD_LINK_STATUS, Truncate(|neighborTable|)] + LinkQualities(order, neighborTable);
      BroadcastIsSendTwo(Model(), payload);
      var _ := SendNwkFrame(payload, BROADCAST, 2);
    }

    method StaleNeighbors(now: int) returns (toRemove: set<word>)
      ensures forall k :: k in toRemove <==> k in neighborTable && Stale(neighborTable[k], now)
    {
      toRemove := {};
      var left := neighborTable.Keys;
      while left != {}
        invariant left <= neighborTable.Keys
        invariant forall k :: k in toRemove <==> k in neighborTable.Keys - left && Stale(neighborTable[k], now)
        decreases |left|
      {
        var addr :| addr in left;
        if now - neighborTable[addr].lastHeard > STALE_TIMEOUT {
          toRemove := toRemove + {addr};
        }
        left := left - {addr};
      }
    }

    method PruneNeighbors(now: int)
      modifies this`neighborTable
      ensures Did(Unchanged(Prune(old(Model()), now)))
    {
      var toRemove := StaleNeighbors(now);
      ghost var stale := toRemove;
      ghost var before := neighborTable;
      hide Without, Stale;
      WithoutNone(before, stale);
      while toRemove != {}
        invariant toRemove <= stale && neighborTable == Without(before, stale - toRemove)
        decreases |toRemove|
      {
        var addr :| addr in toRemove;
        WithoutOne(before, stale - toRemove, addr);
        assert stale - (toRemove - {addr}) == (stale - toRemove) + {addr};
        neighborTable := neighborTable - {addr};
        toRemove := toRemove - {addr};
      }
      assert stale - {} == stale;
      WithoutStale(old(Model()), stale, now);
    }

    /** One turn of the maintenance thread. */
    method MaintenanceRound(now: int) returns (order: seq<word>)
      modifies this
      ensures Enumerates(order, old(neighborTable.Keys))
      ensures var e := LinkStatus(old(Model()), order);
              Did(Effect(Prune(e.state, now), e.frames, e.requests, e.ups))
    {
      hide LinkStatus, Prune;
      order := SendLinkStatus();
      PruneNeighbors(now);
    }
  }

  function Without(m: map<word, Neighbor>, ks: set<word>): map<word, Neighbor> { m - ks }

  lemma WithoutNone(m: map<word, Neighbor>, ks: set<word>)
    ensures Without(m, ks - ks) == m
  {
  }

  lemma WithoutOne(m: map<word, Neighbor>, ks: set<word>, k: word)
    ensures Without(m, ks) - {k} == Without(m, ks + {k})
  {
  }

  lemma WithoutStale(st: State, stale: set<word>, now: int)
    requires forall k :: k in stale <==> k in st.neighbors && Stale(st.neighbors[k], now)
    ensures Without(st.neighbors, stale) == Prune(st, now).neighbors
  {
  }

  lemma IsCommandIs(body: seq<byte>)
    ensures IsCommand(body) <==> |body| > 0 && CMD_ROUTE_REQUEST <= body[0] <= CMD_LINK_STATUS
  {
  }

  lemma LinkQualitiesSnoc(order: seq<word>, k: word, neighbors: map<word, Neighbor>)
    requires k in neighbors && forall j :: j in order ==> j in neighbors
    ensures LinkQualities(order + [k], neighbors) ==
            LinkQualities(order, neighbors) + [Lo(k), Hi(k), neighbors[k].linkQuality]
  {
    assert (order + [k])[..|order|] == order;
  }

  lemma BroadcastIsSendTwo(st: State, payload: seq<byte>)
    ensures Send(st, payload, BROADCAST, 2) == Broadcast(st, payload, 2)
  {
  }

  lemma BroadcastIsSend(st: State, payload: seq<byte>)
    ensures Send(st, payload, BROADCAST, 0) == Broadcast(st, payload, 0)
    ensures Broadcast(st, payload, 0).requests == [] && Broadcast(st, payload, 0).ups == []
  {
  }

  lemma OutgoingIs(seqNum: byte, dst: word, src: word, radius: byte, route: seq<word>)
    ensures Outgoing(seqNum, dst, src, radius, route) == Header(false, route != [], seqNum, dst, src, radius)
  {
  }
}
