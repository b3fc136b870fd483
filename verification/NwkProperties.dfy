/**
 What every step and every run of the network layer keeps.
 */
module NwkProperties {
  import opened Bytes
  import opened NwkFrame
  import opened NwkModel

  // ---- the route table between steps -------------------------------------------------

  /** How an entry looks at rest. */
  predicate AtRest(d: word, r: Route) {
    && (r.state == DISCOVERY_IN_PROGRESS || r.state == ACTIVE || r.state == REPAIR_IN_PROGRESS)
    && r.discoverySeq <= 1
    && |r.sourceRoute| <= 255
    && (r.manyToOne ==> r.sourceRoute == [])
    && (r.state == ACTIVE ==> r.destination == d && r.nextHop == d)
  }

  ghost predicate Inv(st: State) { forall d :: d in st.routes ==> AtRest(d, st.routes[d]) }

  /** a is the reception of a many-to-one request or a route record from d. */
  predicate Installs(a: Action, d: word) {
    a.MacFrame? && Parse(a.frame).Some? && Parse(a.frame).value.hdr.src == d &&
    var body := a.frame[Parse(a.frame).value.headerLen..];
    IsManyToOne(body) || IsRouteRecord(body)
  }

  const ASKED := BLANK.(state := DISCOVERY_IN_PROGRESS, discoverySeq := 1)

  predicate SameEntry(st: State, st': State, d: word) {
    (d in st.routes <==> d in st'.routes) && (d in st.routes ==> st'.routes[d] == st.routes[d])
  }

  /** st' has an entry for d as setRoute leaves it. */
  predicate Installed(st: State, st': State, d: word) {
    d in st'.routes && AtRest(d, st'.routes[d]) && st'.routes[d].state == ACTIVE &&
    st'.routes[d].discoverySeq == Entry(st, d).discoverySeq
  }

  predicate Repaired(st: State, st': State, d: word) {
    d in st.routes && d in st'.routes && st'.routes[d] == st.routes[d].(state := REPAIR_IN_PROGRESS)
  }

  predicate Asked(st: State, e: Effect, d: word) {
    d !in st.routes && d in e.state.routes && e.state.routes[d] == ASKED && e.requests == [d]
  }

  /** What may happen to the entry for d in one step. */
  predicate Moves(st: State, e: Effect, d: word, install: bool) {
    SameEntry(st, e.state, d) || (install && Installed(st, e.state, d)) || Repaired(st, e.state, d) || Asked(st, e, d)
  }

  /** A step asks for at most one route, and only for one it has no entry for. */
  predicate AsksOnce(st: State, e: Effect) { e.requests == [] || (|e.requests| == 1 && Asked(st, e, e.requests[0])) }

  lemma BroadcastMoves(st: State, payload: seq<byte>, radius: byte)
    ensures Broadcast(st, payload, radius).state.routes == st.routes
    ensures Broadcast(st, payload, radius).requests == []
  {
  }

  lemma SendMoves(st: State, payload: seq<byte>, dst: word, radius: byte, d: word)
    requires Inv(st)
    ensures Moves(st, Send(st, payload, dst, radius), d, false) && AsksOnce(st, Send(st, payload, dst, radius))
  {
    hide Transmit;
    TransmitMoves(st, payload, dst, radius);
    if Joined(st) && dst != BROADCAST && !HasRoute(st, dst) && dst in st.routes {
      assert AtRest(dst, st.routes[dst]);
      assert Searching(st, dst);
    } else if Joined(st) && dst != BROADCAST && !HasRoute(st, dst) {
      var st' := st.(routes := st.routes[dst := ASKED]);
      TransmitMoves(st', RouteRequest(1, dst), BROADCAST, 0);
    }
  }

  lemma TransmitMoves(st: State, payload: seq<byte>, dst: word, radius: byte)
    ensures Transmit(st, payload, dst, radius).state.routes == st.routes
    ensures Transmit(st, payload, dst, radius).requests == []
  {
  }

  lemma SetRouteMoves(st: State, src: word, hops: seq<word>, mto: bool, d: word)
    requires Inv(st) && |hops| <= 255 && (mto ==> hops == [])
    ensures if d == src then Installed(st, SetRoute(st, src, src, hops, mto), d)
            else SameEntry(st, SetRoute(st, src, src, hops, mto), d)
  {
  }

  lemma CommandMoves(st: State, h: Header, body: seq<byte>, d: word)
    requires Inv(st) && IsCommand(body)
    ensures Moves(st, Command(st, h, body), d, d == h.src && (IsManyToOne(body) || IsRouteRecord(body)))
    ensures AsksOnce(st, Command(st, h, body))
  {
    hide SetRoute, Broadcast, ReadWords, Installed;
    if IsManyToOne(body) {
      SetRouteMoves(st, h.src, [], true, d);
      BroadcastMoves(SetRoute(st, h.src, h.src, [], true), body, 0);
      InstalledAlike(st, SetRoute(st, h.src, h.src, [], true), Command(st, h, body).state, d);
    } else if IsRouteRecord(body) {
      SetRouteMoves(st, h.src, RecordedHops(body), false, d);
    }
  }

  lemma InstalledAlike(st: State, st': State, st'': State, d: word)
    requires st'.routes == st''.routes
    ensures Installed(st, st', d) == Installed(st, st'', d)
  {
  }

  lemma ForwardMoves(st: State, p: Parsed, frame: seq<byte>, d: word)
    requires Inv(st)
    ensures Moves(st, Forward(st, p, frame), d, false) && AsksOnce(st, Forward(st, p, frame))
  {
    hide Send;
    if p.route != [] {
      var i := IndexOf(p.route, st.own);
      if i + 1 < |p.route| {
        SendMoves(st, frame, p.route[i + 1], 0, d);
      }
    } else if HasRoute(st, p.hdr.dst) {
      SendMoves(st, frame, st.routes[p.hdr.dst].nextHop, 0, d);
    }
  }

  lemma HeardAlike(st: State, heard: State, e: Effect, d: word, install: bool)
    requires heard.routes == st.routes
    ensures Moves(st, e, d, install) == Moves(heard, e, d, install)
    ensures AsksOnce(st, e) == AsksOnce(heard, e)
    ensures Inv(st) == Inv(heard)
  {
  }

  lemma InboundMoves(st: State, a: Action, d: word)
    requires Inv(st) && a.MacFrame?
    ensures var e := Inbound(st, a.frame, a.rssi, a.lqi, a.now); Moves(st, e, d, Installs(a, d)) && AsksOnce(st, e)
  {
    hide Command, Forward, Parse, IsManyToOne, IsRouteRecord, IsCommand;
    var e := Inbound(st, a.frame, a.rssi, a.lqi, a.now);
    match Parse(a.frame)
    case None =>
    case Some(p) =>
      var heard := Heard(st, p.hdr.src, a.rssi, a.lqi, a.now);
      var body := a.frame[p.headerLen..];
      HeardAlike(st, heard, e, d, Installs(a, d));
      if IsCommand(body) {
        CommandMoves(heard, p.hdr, body, d);
      } else if !(p.hdr.dst == st.own || p.hdr.dst == BROADCAST) {
        ForwardMoves(heard, p, a.frame, d);
      }
  }

  /** One step leaves an entry alone, installs it, marks it for repair, or creates it asking for it. */
  lemma StepMoves(st: State, a: Action, d: word)
    requires Inv(st) && Enabled(st, a)
    ensures Moves(st, Step(st, a), d, Installs(a, d)) && AsksOnce(st, Step(st, a))
  {
    hide Send, Inbound, Broadcast, Installs, LinkQualities;
    match a {
      case SendNwkFrame(payload, dst, radius) => SendMoves(st, payload, dst, radius, d);
      case ManyToOneDiscovery(radius) => SendMoves(st, [CMD_MTO_ROUTE_REQUEST, radius], BROADCAST, 0, d);
      case MacFrame(_, _, _, _) => InboundMoves(st, a, d);
      case SendLinkStatus(order) =>
        BroadcastMoves(st, [CMD_LINK_STATUS, Truncate(|st.neighbors|)] + LinkQualities(order, st.neighbors), 2);
      case _ =>
    }
  }

  lemma StepKeepsInv(st: State, a: Action)
    requires Inv(st) && Enabled(st, a)
    ensures Inv(Step(st, a).state)
  {
    hide Step, Installs, Enabled;
    forall d | d in Step(st, a).state.routes ensures AtRest(d, Step(st, a).state.routes[d]) {
      StepMoves(st, a, d);
    }
  }

  /** In every run no entry is ever at rest in IDLE or FAILED, nor with hops a frame cannot carry. */
  lemma {:induction false} RunKeepsInv(st: State, run: seq<Action>)
    requires Inv(st) && Feasible(st, run)
    ensures Inv(Run(st, run).state)
  {
    hide Step, Enabled, Inv;
    if run != [] {
      RunKeepsInv(st, run[..|run| - 1]);
      StepKeepsInv(Run(st, run[..|run| - 1]).state, run[|run| - 1]);
    }
  }

  /** An entry becomes ACTIVE exactly when a many-to-one request or a route record comes from its address. */
  lemma ActivatedIff(st: State, a: Action, d: word)
    requires Inv(st) && Enabled(st, a) && !HasRoute(st, d)
    ensures HasRoute(Step(st, a).state, d) <==> Installs(a, d)
  {
    hide Step, Enabled, Installs;
    StepMoves(st, a, d);
    if Installs(a, d) {
      InstallsActivates(st, a, d);
    }
  }

  lemma InstallsActivates(st: State, a: Action, d: word)
    requires Installs(a, d) && Enabled(st, a)
    ensures HasRoute(Step(st, a).state, d)
  {
    hide Parse, Broadcast, ReadWords;
    var p := Parse(a.frame).value;
    var heard := Heard(st, d, a.rssi, a.lqi, a.now);
    var body := a.frame[p.headerLen..];
    if IsManyToOne(body) {
      BroadcastMoves(SetRoute(heard, d, d, [], true), body, 0);
    }
  }

  // ---- route requests ----------------------------------------------------------------

  /** The address a step hands to sendNwkFrame as destination, if it comes to that. */
  function Target(st: State, a: Action): Option<word> {
    match a
    case SendNwkFrame(_, dst, _) => Some(dst)
    case MacFrame(frame, _, _, _) =>
      (match Parse(frame)
       case None => None
       case Some(p) =>
         var body := frame[p.headerLen..];
         if IsCommand(body) || p.hdr.dst == st.own || p.hdr.dst == BROADCAST then None
         else if p.route != [] then
           var i := IndexOf(p.route, st.own);
           if i + 1 < |p.route| then Some(p.route[i + 1]) else None
         else if HasRoute(st, p.hdr.dst) then Some(st.routes[p.hdr.dst].nextHop) else None)
    case _ => None
  }

  lemma SendRequests(st: State, payload: seq<byte>, dst: word, radius: byte)
    requires Inv(st)
    ensures Send(st, payload, dst, radius).requests ==
            if Joined(st) && dst != BROADCAST && dst !in st.routes then [dst] else []
  {
    hide Transmit;
    TransmitMoves(st, payload, dst, radius);
    if dst in st.routes {
      assert AtRest(dst, st.routes[dst]);
    }
  }

  /**
   A route request goes out exactly when a joined node is to send to a unicast address that
   has no entry at all; an entry under discovery, under repair or ACTIVE rules it out.
   */
  lemma RequestIff(st: State, a: Action, d: word)
    requires Inv(st) && Enabled(st, a)
    ensures Step(st, a).requests == [d] <==>
            Joined(st) && Target(st, a) == Some(d) && d != BROADCAST && d !in st.routes
  {
    hide Send, Broadcast, Parse, IsCommand, Command, LinkQualities;
    match a {
      case SendNwkFrame(payload, dst, radius) => SendRequests(st, payload, dst, radius);
      case ManyToOneDiscovery(radius) => SendRequests(st, [CMD_MTO_ROUTE_REQUEST, radius], BROADCAST, 0);
      case MacFrame(frame, rssi, lqi, now) => InboundRequests(st, a, d);
      case SendLinkStatus(order) =>
        BroadcastMoves(st, [CMD_LINK_STATUS, Truncate(|st.neighbors|)] + LinkQualities(order, st.neighbors), 2);
      case _ =>
    }
  }

  lemma CommandRequests(st: State, h: Header, body: seq<byte>)
    requires IsCommand(body)
    ensures Command(st, h, body).requests == []
  {
    hide SetRoute, Broadcast, ReadWords;
    if IsManyToOne(body) {
      BroadcastMoves(SetRoute(st, h.src, h.src, [], true), body, 0);
    }
  }

  lemma InboundRequests(st: State, a: Action, d: word)
    requires Inv(st) && a.MacFrame?
    ensures Inbound(st, a.frame, a.rssi, a.lqi, a.now).requests == [d] <==>
            Joined(st) && Target(st, a) == Some(d) && d != BROADCAST && d !in st.routes
  {
    hide Send, Parse, IsCommand, Command;
    match Parse(a.frame)
    case None =>
    case Some(p) =>
      var heard := Heard(st, p.hdr.src, a.rssi, a.lqi, a.now);
      var body := a.frame[p.headerLen..];
      if IsCommand(body) {
        CommandRequests(heard, p.hdr, body);
      } else if !(p.hdr.dst == st.own || p.hdr.dst == BROADCAST) {
        var t := Target(st, a);
        assert t == Target(heard, a);
        if t.Some? {
          SendRequests(heard, a.frame, t.value, 0);
        }
      }
  }

  function Times(ds: seq<word>, d: word): nat {
    if ds == [] then 0 else Times(ds[..|ds| - 1], d) + (if ds[|ds| - 1] == d then 1 else 0)
  }

  lemma {:induction false} TimesConcat(a: seq<word>, b: seq<word>, d: word)
    ensures Times(a + b, d) == Times(a, d) + Times(b, d)
  {
    if b == [] {
      assert a + b == a;
    } else {
      var k := |b| - 1;
      TimesConcat(a, b[..k], d);
      assert (a + b)[..|a| + k] == a + b[..k];
    }
  }

  lemma TimesOne(x: word, d: word)
    ensures Times([x], d) == if x == d then 1 else 0
  {
    assert [x][..0] == [];
  }

  lemma StepCounts(st: State, a: Action, d: word)
    requires Inv(st) && Enabled(st, a)
    ensures Entry(Step(st, a).state, d).discoverySeq == Entry(st, d).discoverySeq + Times(Step(st, a).requests, d)
  {
    hide Step, Enabled, Installs, Times;
    var e := Step(st, a);
    StepMoves(st, a, d);
    if e.requests == [] {
      TimesNone(d);
    } else {
      var x := e.requests[0];
      assert e.requests == [x];
      TimesOne(x, d);
      StepMoves(st, a, x);
    }
  }

  lemma TimesNone(d: word) ensures Times([], d) == 0 {}

  /**
   In every run, from a node with no routes, each destination is asked for at most once, and
   the discovery sequence number of its entry is the number of times it was.
   */
  lemma {:induction false} OneRequestPerDestination(own: word, run: seq<Action>, d: word)
    requires Feasible(Initial(own), run)
    ensures Times(Run(Initial(own), run).requests, d) == Entry(Run(Initial(own), run).state, d).discoverySeq <= 1
  {
    hide Step, Enabled, Inv, Times;
    TimesNone(d);
    InitialInv(own);
    if run != [] {
      var k := |run| - 1;
      var before := Run(Initial(own), run[..k]);
      OneRequestPerDestination(own, run[..k], d);
      RunKeepsInv(Initial(own), run[..k]);
      StepCounts(before.state, run[k], d);
      TimesConcat(before.requests, Step(before.state, run[k]).requests, d);
    }
    RunKeepsInv(Initial(own), run);
    SeqAtMostOne(Run(Initial(own), run).state, d);
  }

  lemma InitialInv(own: word) ensures Inv(Initial(own)) {}

  lemma SeqAtMostOne(st: State, d: word)
    requires Inv(st)
    ensures Entry(st, d).discoverySeq <= 1
  {
  }

  /** A request is one broadcast frame with sequence number 1 for the destination. */
  lemma RequestIsBroadcast(st: State, a: Action, d: word)
    requires Inv(st) && Enabled(st, a) && Step(st, a).requests == [d]
    ensures Step(st, a).frames ==
            [Build(RouteRequest(1, d), Outgoing(st.seqNum, BROADCAST, st.own, DEFAULT_RADIUS, []), [])]
  {
    hide Parse, IsCommand, Build, Command, LinkQualities;
    RequestIff(st, a, d);
  }

  // ---- a lost route stays lost ---------------------------------------------------------

  lemma SearchingPersists(st: State, a: Action, d: word)
    requires Inv(st) && Enabled(st, a) && Searching(st, d) && !Installs(a, d)
    ensures Searching(Step(st, a).state, d) && Times(Step(st, a).requests, d) == 0
  {
    hide Step, Enabled, Installs, Times;
    StepMoves(st, a, d);
    StepCounts(st, a, d);
  }

  /**
   Once an entry is under discovery or repair, it stays so over any run without a route command
   from its address: no further request is broadcast for it, and a send to it emits nothing. In
   particular a route error silences a destination for good unless that address speaks up.
   */
  lemma {:induction false} SilentUntilInstalled(st: State, run: seq<Action>, d: word, payload: seq<byte>, radius: byte)
    requires Inv(st) && Feasible(st, run) && Searching(st, d) && d != BROADCAST
    requires forall i :: 0 <= i < |run| ==> !Installs(run[i], d)
    ensures Searching(Run(st, run).state, d) && Times(Run(st, run).requests, d) == 0
    ensures Send(Run(st, run).state, payload, d, radius) == Unchanged(Run(st, run).state)
  {
    hide Step, Enabled, Inv, Times, Installs;
    TimesNone(d);
    if run != [] {
      var k := |run| - 1;
      var before := Run(st, run[..k]);
      SilentUntilInstalled(st, run[..k], d, payload, radius);
      RunKeepsInv(st, run[..k]);
      SearchingPersists(before.state, run[k], d);
      TimesConcat(before.requests, Step(before.state, run[k]).requests, d);
    }
  }
}
