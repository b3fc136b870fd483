/**
 The neighbour table as a record of the past: who was heard, when, and which prunings came since.
 */
module NeighborHistory {
  import opened Bytes
  import opened NwkFrame
  import opened NwkModel

  datatype Event =
    | Heard(addr: word, rssi: int, lqi: byte, now: int)
    | Pruned(now: int)

  /** What a step means for the table. */
  function EventOf(a: Action): Option<Event> {
    match a
    case MacFrame(frame, rssi, lqi, now) =>
      (match Parse(frame)
       case Some(p) => Some(Event.Heard(p.hdr.src, rssi, lqi, now))
       case None => None)
    case PruneNeighbors(now) => Some(Pruned(now))
    case _ => None
  }

  function History(run: seq<Action>): seq<Event> {
    if run == [] then []
    else
      var before := History(run[..|run| - 1]);
      match EventOf(run[|run| - 1])
      case Some(e) => before + [e]
      case None => before
  }

  predicate HeardAt(h: seq<Event>, addr: word, i: nat) { i < |h| && h[i].Heard? && h[i].addr == addr }

  /** Position i is the latest reception from addr, and no later pruning found it too old. */
  ghost predicate KeptBy(h: seq<Event>, addr: word, i: nat) {
    && HeardAt(h, addr, i)
    && (forall j :: i < j < |h| ==> !HeardAt(h, addr, j))
    && (forall j :: i < j < |h| && h[j].Pruned? ==> h[j].now - h[i].now <= STALE_TIMEOUT)
  }

  /** The entry the reception at position i leaves. */
  function Reported(h: seq<Event>, addr: word, i: nat): Neighbor {
    if HeardAt(h, addr, i) then Neighbor(addr, 0, h[i].rssi, h[i].lqi, h[i].now) else Neighbor(addr, 0, 0, 0, 0)
  }

  /** The table holds exactly the kept addresses, each with what its latest reception reported. */
  ghost predicate Records(neighbors: map<word, Neighbor>, h: seq<Event>) {
    && (forall addr :: addr in neighbors ==> exists i: nat :: KeptBy(h, addr, i))
    && (forall addr, i: nat :: KeptBy(h, addr, i) ==> addr in neighbors && neighbors[addr] == Reported(h, addr, i))
  }

  lemma KeptAfterHeard(h: seq<Event>, e: Event, addr: word, i: nat)
    requires e.Heard?
    ensures KeptBy(h + [e], addr, i) <==> if addr == e.addr then i == |h| else KeptBy(h, addr, i)
  {
    var g := h + [e];
    assert g[|h|] == e;
    if addr == e.addr {
      assert HeardAt(g, addr, |h|);
    } else {
      assert !HeardAt(g, addr, |h|);
      assert forall j: nat :: j < |h| ==> HeardAt(g, addr, j) == HeardAt(h, addr, j);
      assert forall j: nat :: j < |h| ==> g[j] == h[j];
    }
  }

  lemma KeptAfterPrune(h: seq<Event>, e: Event, addr: word, i: nat)
    requires e.Pruned?
    ensures KeptBy(h + [e], addr, i) <==> KeptBy(h, addr, i) && e.now - h[i].now <= STALE_TIMEOUT
  {
    var g := h + [e];
    assert g[|h|] == e;
    assert forall j :: 0 <= j < |h| ==> g[j] == h[j];
    assert forall j: nat :: j < |h| ==> HeardAt(g, addr, j) == HeardAt(h, addr, j);
  }

  lemma HeardRecords(neighbors: map<word, Neighbor>, h: seq<Event>, e: Event)
    requires Records(neighbors, h) && e.Heard?
    ensures Records(neighbors[e.addr := Neighbor(e.addr, 0, e.rssi, e.lqi, e.now)], h + [e])
  {
    hide KeptBy;
    var after := neighbors[e.addr := Neighbor(e.addr, 0, e.rssi, e.lqi, e.now)];
    var g := h + [e];
    forall addr, i: nat | KeptBy(g, addr, i)
      ensures addr in after && after[addr] == Reported(g, addr, i)
    {
      KeptAfterHeard(h, e, addr, i);
      KeptInRange(g, addr, i);
    }
    forall addr | addr in after ensures exists i: nat :: KeptBy(g, addr, i) {
      if addr == e.addr {
        KeptAfterHeard(h, e, addr, |h|);
      } else {
        var i: nat :| KeptBy(h, addr, i);
        KeptAfterHeard(h, e, addr, i);
      }
    }
  }

  lemma KeptInRange(h: seq<Event>, addr: word, i: nat)
    requires KeptBy(h, addr, i)
    ensures HeardAt(h, addr, i)
  {
  }

  lemma PruneRecords(st: State, h: seq<Event>, e: Event)
    requires Records(st.neighbors, h) && e.Pruned?
    ensures Records(Prune(st, e.now).neighbors, h + [e])
  {
    hide KeptBy;
    var g := h + [e];
    var after := Prune(st, e.now).neighbors;
    forall addr, i: nat | KeptBy(g, addr, i)
      ensures addr in after && after[addr] == Reported(g, addr, i)
    {
      KeptAfterPrune(h, e, addr, i);
      KeptInRange(h, addr, i);
    }
    forall addr | addr in after ensures exists i: nat :: KeptBy(g, addr, i) {
      var i: nat :| KeptBy(h, addr, i);
      KeptInRange(h, addr, i);
      KeptAfterPrune(h, e, addr, i);
    }
  }

  lemma SendKeepsNeighbors(st: State, payload: seq<byte>, dst: word, radius: byte)
    ensures Send(st, payload, dst, radius).state.neighbors == st.neighbors
  {
  }

  lemma CommandKeepsNeighbors(st: State, h: Header, body: seq<byte>)
    requires IsCommand(body)
    ensures Command(st, h, body).state.neighbors == st.neighbors
  {
    hide Build, ReadWords;
  }

  lemma ForwardKeepsNeighbors(st: State, p: Parsed, frame: seq<byte>)
    ensures Forward(st, p, frame).state.neighbors == st.neighbors
  {
    hide Send;
    if p.route != [] {
      var i := IndexOf(p.route, st.own);
      if i + 1 < |p.route| {
        SendKeepsNeighbors(st, frame, p.route[i + 1], 0);
      }
    } else if HasRoute(st, p.hdr.dst) {
      SendKeepsNeighbors(st, frame, st.routes[p.hdr.dst].nextHop, 0);
    }
  }

  lemma InboundNeighbors(st: State, frame: seq<byte>, rssi: int, lqi: byte, now: int)
    ensures Inbound(st, frame, rssi, lqi, now).state.neighbors ==
            match Parse(frame)
            case Some(p) => NwkModel.Heard(st, p.hdr.src, rssi, lqi, now).neighbors
            case None => st.neighbors
  {
    hide Parse, Command, Forward, IsCommand;
    if Parse(frame).Some? {
      var p := Parse(frame).value;
      var heard := NwkModel.Heard(st, p.hdr.src, rssi, lqi, now);
      var body := frame[p.headerLen..];
      if IsCommand(body) {
        CommandKeepsNeighbors(heard, p.hdr, body);
      } else {
        ForwardKeepsNeighbors(heard, p, frame);
      }
    }
  }

  /** No extended address is ever learnt. */
  lemma NoExtendedAddress(neighbors: map<word, Neighbor>, h: seq<Event>, addr: word)
    requires Records(neighbors, h) && addr in neighbors
    ensures neighbors[addr].extAddr == 0
  {
    var i: nat :| KeptBy(h, addr, i);
  }

  lemma StepRecords(st: State, a: Action, h: seq<Event>)
    requires Records(st.neighbors, h) && Enabled(st, a)
    ensures Records(Step(st, a).state.neighbors, match EventOf(a) case Some(e) => h + [e] case None => h)
  {
    hide Records, Send, Inbound, Parse, Prune, LinkQualities;
    match a {
      case SendNwkFrame(payload, dst, radius) => SendKeepsNeighbors(st, payload, dst, radius);
      case ManyToOneDiscovery(radius) => SendKeepsNeighbors(st, [CMD_MTO_ROUTE_REQUEST, radius], BROADCAST, 0);
      case MacFrame(frame, rssi, lqi, now) =>
        InboundNeighbors(st, frame, rssi, lqi, now);
        if Parse(frame).Some? {
          var src := Parse(frame).value.hdr.src;
          HeardRecords(st.neighbors, h, Event.Heard(src, rssi, lqi, now));
          if src in st.neighbors {
            NoExtendedAddress(st.neighbors, h, src);
          }
        }
      case PruneNeighbors(now) => PruneRecords(st, h, Pruned(now));
      case _ =>
    }
  }

  /**
   After any interleaving of receptions and prunings an address is in the table exactly if it
   was heard and every pruning since its latest reception came within 300 s of that reception;
   its entry is what that reception reported.
   */
  lemma {:induction false} TableIsHistory(own: word, run: seq<Action>)
    requires Feasible(Initial(own), run)
    ensures Records(Run(Initial(own), run).state.neighbors, History(run))
  {
    hide Step, Enabled, EventOf;
    if run != [] {
      hide Records;
      var k := |run| - 1;
      TableIsHistory(own, run[..k]);
      StepRecords(Run(Initial(own), run[..k]).state, run[k], History(run[..k]));
    }
  }
}
