/**
 The ACTIVE entries of the route table as a record of the past: which addresses last reported a
 route, and which of those routes were given up since.
 */
module RouteHistory {
  import opened Bytes
  import opened NwkFrame
  import opened NwkModel
  import opened NwkProperties
  import opened NwkFrames

  // ---- how an entry is lost ----------------------------------------------------------

  /** A route error meant for this node that names d. */
  predicate IsRouteError(body: seq<byte>, own: word, d: word) {
    |body| >= 5 && body[0] == CMD_ROUTE_ERROR && Word(body[1], body[2]) == own && Word(body[3], body[4]) == d
  }

  /** The command frame a step receives, if it receives one. */
  function BodyOf(a: Action): seq<byte> {
    if a.MacFrame? && Parse(a.frame).Some? then a.frame[Parse(a.frame).value.headerLen..] else []
  }

  /** d is repaired on request, or reported broken. */
  predicate Loses(own: word, a: Action, d: word) { a == RepairRoute(d) || IsRouteError(BodyOf(a), own, d) }

  lemma SendKeepsActive(st: State, payload: seq<byte>, dst: word, radius: byte, d: word)
    requires HasRoute(st, d)
    ensures HasRoute(Send(st, payload, dst, radius).state, d)
  {
    hide Build, Outgoing;
  }

  lemma ForwardKeepsActive(st: State, p: Parsed, frame: seq<byte>, d: word)
    requires HasRoute(st, d)
    ensures HasRoute(Forward(st, p, frame).state, d)
  {
    hide Send;
    if p.route != [] {
      var i := IndexOf(p.route, st.own);
      if i + 1 < |p.route| {
        SendKeepsActive(st, frame, p.route[i + 1], 0, d);
      }
    } else if HasRoute(st, p.hdr.dst) {
      SendKeepsActive(st, frame, st.routes[p.hdr.dst].nextHop, 0, d);
    }
  }

  lemma CommandKeepsActive(st: State, h: Header, body: seq<byte>, d: word)
    requires HasRoute(st, d) && IsCommand(body)
    ensures HasRoute(Command(st, h, body).state, d) <==> !IsRouteError(body, st.own, d)
  {
    hide Broadcast, ReadWords;
    if IsManyToOne(body) {
      BroadcastMoves(SetRoute(st, h.src, h.src, [], true), body, 0);
    }
  }

  lemma ErrorIsCommand(body: seq<byte>, own: word, d: word)
    requires IsRouteError(body, own, d)
    ensures IsCommand(body)
  {
  }

  lemma InboundKeepsActive(st: State, a: Action, d: word)
    requires HasRoute(st, d) && a.MacFrame?
    ensures HasRoute(Inbound(st, a.frame, a.rssi, a.lqi, a.now).state, d) <==> !IsRouteError(BodyOf(a), st.own, d)
  {
    hide Command, Forward, Parse, IsRouteError, IsCommand;
    match Parse(a.frame)
    case None => NoError(st.own, d);
    case Some(p) =>
      var heard := Heard(st, p.hdr.src, a.rssi, a.lqi, a.now);
      var body := a.frame[p.headerLen..];
      if IsCommand(body) {
        CommandKeepsActive(heard, p.hdr, body, d);
      } else {
        if IsRouteError(body, st.own, d) {
          ErrorIsCommand(body, st.own, d);
        }
        ForwardKeepsActive(heard, p, a.frame, d);
      }
  }

  lemma NoError(own: word, d: word) ensures !IsRouteError([], own, d) {}

  /** An ACTIVE entry ends exactly with a repair asked for or a route error for this node naming it. */
  lemma DeactivatedIff(st: State, a: Action, d: word)
    requires Enabled(st, a) && HasRoute(st, d)
    ensures !HasRoute(Step(st, a).state, d) <==> Loses(st.own, a, d)
  {
    hide Send, Inbound, Broadcast, LinkQualities, IsRouteError, Parse;
    NoError(st.own, d);
    match a {
      case SendNwkFrame(payload, dst, radius) => SendKeepsActive(st, payload, dst, radius, d);
      case ManyToOneDiscovery(radius) => SendKeepsActive(st, [CMD_MTO_ROUTE_REQUEST, radius], BROADCAST, 0, d);
      case MacFrame(_, _, _, _) => InboundKeepsActive(st, a, d);
      case SendLinkStatus(order) =>
        BroadcastMoves(st, [CMD_LINK_STATUS, Truncate(|st.neighbors|)] + LinkQualities(order, st.neighbors), 2);
      case _ =>
    }
  }

  // ---- what an install leaves --------------------------------------------------------

  /** The hops a route command lists: none for a many-to-one request. */
  function HopsOf(a: Action): seq<word> {
    if IsRouteRecord(BodyOf(a)) then RecordedHops(BodyOf(a)) else []
  }

  /** The entry for d as the install a leaves it, asked for n times before. */
  function InstalledBy(a: Action, d: word, n: byte): Route {
    Route(d, d, ACTIVE, n, IsManyToOne(BodyOf(a)), HopsOf(a))
  }

  lemma InstallsExactly(st: State, a: Action, d: word)
    requires Installs(a, d) && Enabled(st, a)
    ensures d in Step(st, a).state.routes
    ensures Step(st, a).state.routes[d] == InstalledBy(a, d, Entry(st, d).discoverySeq)
  {
    hide Parse, Broadcast, ReadWords;
    var p := Parse(a.frame).value;
    var heard := Heard(st, d, a.rssi, a.lqi, a.now);
    var body := a.frame[p.headerLen..];
    if IsManyToOne(body) {
      BroadcastMoves(SetRoute(heard, d, d, [], true), body, 0);
    }
  }

  lemma ActiveStays(st: State, a: Action, d: word)
    requires Inv(st) && Enabled(st, a) && HasRoute(st, d) && !Installs(a, d) && !Loses(st.own, a, d)
    ensures HasRoute(Step(st, a).state, d) && Step(st, a).state.routes[d] == st.routes[d]
  {
    hide Step, Installs, Loses, Enabled;
    StepMoves(st, a, d);
    DeactivatedIff(st, a, d);
  }

  // ---- runs ------------------------------------------------------------------------

  /** Step i is the latest install of d, and nothing has given the route up since. */
  ghost predicate KeptFrom(own: word, run: seq<Action>, d: word, i: nat) {
    && i < |run| && Installs(run[i], d)
    && forall j :: i < j < |run| ==> !Installs(run[j], d) && !Loses(own, run[j], d)
  }

  lemma KeptSnoc(own: word, run: seq<Action>, d: word, i: nat)
    requires run != []
    ensures var k := |run| - 1;
            KeptFrom(own, run, d, i) <==>
            if Installs(run[k], d) then i == k else !Loses(own, run[k], d) && KeptFrom(own, run[..k], d, i)
  {
    hide Installs, Loses;
    var k := |run| - 1;
    assert forall j :: 0 <= j < k ==> run[j] == run[..k][j];
  }

  lemma KeptInRange(own: word, run: seq<Action>, d: word, i: nat)
    requires KeptFrom(own, run, d, i)
    ensures i < |run|
  {
  }

  /** The table has d ACTIVE exactly if the run keeps an install of it, and then as that left it. */
  ghost predicate Reflects(st: State, own: word, run: seq<Action>, d: word) {
    && (HasRoute(st, d) <==> exists i: nat :: KeptFrom(own, run, d, i))
    && (forall i: nat :: KeptFrom(own, run, d, i) ==>
          i < |run| && d in st.routes && st.routes[d] == InstalledBy(run[i], d, st.routes[d].discoverySeq))
  }

  lemma NothingKept(own: word, d: word) ensures Reflects(Initial(own), own, [], d) {}

  lemma StepReflects(st: State, own: word, run: seq<Action>, d: word)
    requires run != [] && Inv(st) && st.own == own
    requires Reflects(st, own, run[..|run| - 1], d) && Enabled(st, run[|run| - 1])
    ensures Reflects(Step(st, run[|run| - 1]).state, own, run, d)
  {
    hide Step, Enabled, Inv, Installs, Loses, KeptFrom, InstalledBy;
    var k := |run| - 1;
    var a, before := run[k], run[..k];
    forall i: nat
      ensures KeptFrom(own, run, d, i) <==>
              if Installs(a, d) then i == k else !Loses(own, a, d) && KeptFrom(own, before, d, i)
      ensures KeptFrom(own, run, d, i) ==> i < |run|
      ensures KeptFrom(own, before, d, i) ==> i < k && before[i] == run[i]
    {
      KeptSnoc(own, run, d, i);
      if KeptFrom(own, run, d, i) {
        KeptInRange(own, run, d, i);
      }
      if KeptFrom(own, before, d, i) {
        KeptInRange(own, before, d, i);
      }
    }
    if Installs(a, d) {
      InstallsExactly(st, a, d);
      InstalledIs(a, d, Entry(st, d).discoverySeq);
      assert KeptFrom(own, run, d, k);
    } else if !HasRoute(st, d) {
      ActivatedIff(st, a, d);
    } else if Loses(own, a, d) {
      DeactivatedIff(st, a, d);
    } else {
      ActiveStays(st, a, d);
      var i: nat :| KeptFrom(own, before, d, i);
      assert KeptFrom(own, run, d, i);
    }
  }

  lemma InstalledIs(a: Action, d: word, n: byte)
    ensures InstalledBy(a, d, n).state == ACTIVE && InstalledBy(a, d, n).discoverySeq == n
  {
  }

  /**
   In every run, d is ACTIVE exactly if it has reported a route and neither a repair nor a route
   error has come since; its next hop, hops and kind are then those of the latest report.
   */
  lemma {:induction false} ActiveIsHistory(own: word, run: seq<Action>, d: word)
    requires Feasible(Initial(own), run)
    ensures Reflects(Run(Initial(own), run).state, own, run, d)
  {
    hide Step, Enabled, Inv, Reflects;
    if run == [] {
      NothingKept(own, d);
    } else {
      var before := run[..|run| - 1];
      ActiveIsHistory(own, before, d);
      InitialInv(own);
      RunKeepsInv(Initial(own), before);
      FramesAreNumbered(own, before);
      StepReflects(Run(Initial(own), before).state, own, run, d);
    }
  }

  // ---- a reported break silences the destination ---------------------------------------

  /**
   A route error for this node that names a destination it knows is answered with nothing at all:
   no frame, no request. From then on, over any run without a route command from the destination,
   nothing is asked for and whatever is sent to it is dropped.
   */
  lemma RouteErrorSilences(st: State, frame: seq<byte>, h: Header, route: seq<word>, body: seq<byte>, d: word,
                           rssi: int, lqi: byte, now: int, run: seq<Action>, payload: seq<byte>, radius: byte)
    requires Inv(st) && d in st.routes && d != BROADCAST
    requires ReadsAs(frame, h, route, body) && IsRouteError(body, st.own, d)
    requires Feasible(Inbound(st, frame, rssi, lqi, now).state, run)
    requires forall i :: 0 <= i < |run| ==> !Installs(run[i], d)
    ensures var broken := Inbound(st, frame, rssi, lqi, now);
            var e := Run(broken.state, run);
            && broken.frames == [] && broken.requests == [] && Searching(broken.state, d)
            && Times(e.requests, d) == 0 && Searching(e.state, d)
            && Send(e.state, payload, d, radius) == Unchanged(e.state)
  {
    hide ReadsAs, Inv, Installs, Feasible, Run, Times;
    ErrorIsCommand(body, st.own, d);
    ReadsAsBody(frame, h, route, body, st, rssi, lqi, now);
    var broken := Inbound(st, frame, rssi, lqi, now);
    var a := MacFrame(frame, rssi, lqi, now);
    StepKeepsInv(st, a);
    SilentUntilInstalled(broken.state, run, d, payload, radius);
  }
}
