/**
 What one step of the network layer does to its tables, which frames it hands to the MAC and
 what it passes upward. The class in module NwkLayer computes these functions.
 */
module NwkModel {
  import opened Bytes
  import opened NwkFrame

  const DEFAULT_RADIUS: byte := 10
  /** 300 s in the nanoseconds of the steady clock. */
  const STALE_TIMEOUT := 300_000_000_000

  const CMD_ROUTE_REQUEST: byte := 0x01
  const CMD_MTO_ROUTE_REQUEST: byte := 0x03
  const CMD_ROUTE_RECORD: byte := 0x04
  const CMD_ROUTE_ERROR: byte := 0x05
  const CMD_LINK_STATUS: byte := 0x06

  datatype RouteState = IDLE | DISCOVERY_IN_PROGRESS | ACTIVE | REPAIR_IN_PROGRESS | FAILED

  datatype Route = Route(destination: word, nextHop: word, state: RouteState, discoverySeq: byte,
                         manyToOne: bool, sourceRoute: seq<word>)

  /** The entry operator[] creates. */
  const BLANK := Route(0, 0, IDLE, 0, false, [])

  datatype Neighbor = Neighbor(shortAddr: word, extAddr: nat, lastRssi: int, linkQuality: byte, lastHeard: int)

  datatype State = State(own: word, running: bool, callback: bool, routes: map<word, Route>,
                         neighbors: map<word, Neighbor>, seqNum: byte)

  /** A call of the payload callback. */
  datatype Delivery = Delivery(payload: seq<byte>, src: word, dst: word)

  /** The new state, the frames emitted, the destinations a route request was broadcast for, the upcalls. */
  datatype Effect = Effect(state: State, frames: seq<seq<byte>>, requests: seq<word>, ups: seq<Delivery>)

  function Unchanged(st: State): Effect { Effect(st, [], [], []) }

  // ---- sending ---------------------------------------------------------------------

  /** sendNwkFrame gets past its first checks. */
  predicate Joined(st: State) { st.running && st.own != BROADCAST }

  predicate HasRoute(st: State, dst: word) { dst in st.routes && st.routes[dst].state == ACTIVE }

  predicate Searching(st: State, dst: word) {
    dst in st.routes &&
    (st.routes[dst].state == DISCOVERY_IN_PROGRESS || st.routes[dst].state == REPAIR_IN_PROGRESS)
  }

  /** The hops a frame to dst is sent with. */
  function RouteTo(st: State, dst: word): seq<word> {
    if dst != BROADCAST && HasRoute(st, dst) then st.routes[dst].sourceRoute else []
  }

  function RadiusOr(radius: byte): byte { if radius == 0 then DEFAULT_RADIUS else radius }

  /** The frame itself, and the sequence number it uses up. */
  function Transmit(st: State, payload: seq<byte>, dst: word, radius: byte): Effect {
    var route := RouteTo(st, dst);
    var h := Outgoing(st.seqNum, dst, st.own, RadiusOr(radius), route);
    Effect(st.(seqNum := (st.seqNum + 1) % 0x100), [Build(payload, h, route)], [], [])
  }

  function RouteRequest(seqNum: byte, dst: word): seq<byte> { [CMD_ROUTE_REQUEST, seqNum, Lo(dst), Hi(dst)] }

  function Entry(st: State, dst: word): Route { if dst in st.routes then st.routes[dst] else BLANK }

  function Broadcast(st: State, payload: seq<byte>, radius: byte): Effect {
    if Joined(st) then Transmit(st, payload, BROADCAST, radius) else Unchanged(st)
  }

  /** initiateRouteDiscovery: at most one broadcast, and none while one is under way. */
  function Discover(st: State, dst: word): Effect {
    if Searching(st, dst) then Unchanged(st)
    else
      var entry := Entry(st, dst);
      var asked := entry.(state := DISCOVERY_IN_PROGRESS, discoverySeq := (entry.discoverySeq + 1) % 0x100);
      var st' := st.(routes := st.routes[dst := asked]);
      Broadcast(st', RouteRequest(asked.discoverySeq, dst), 0).(requests := [dst])
  }

  /** sendNwkFrame */
  function Send(st: State, payload: seq<byte>, dst: word, radius: byte): Effect {
    if !Joined(st) then Unchanged(st)
    else if dst == BROADCAST || HasRoute(st, dst) then Transmit(st, payload, dst, radius)
    else Discover(st, dst)
  }

  // ---- the route table --------------------------------------------------------------

  function SetRoute(st: State, dst: word, nextHop: word, hops: seq<word>, mto: bool): State {
    st.(routes := st.routes[dst := Entry(st, dst).(destination := dst, nextHop := nextHop, state := ACTIVE,
                                                   sourceRoute := hops, manyToOne := mto)])
  }

  /** repairRoute: the entry is marked, and the discovery it then asks for sees it as under way. */
  function Repair(st: State, dst: word): State {
    if dst in st.routes then st.(routes := st.routes[dst := st.routes[dst].(state := REPAIR_IN_PROGRESS)]) else st
  }

  // ---- receiving -------------------------------------------------------------------

  /** updateNeighbor: an extended address of zero means none was learnt. */
  function Learnt(st: State, addr: word, extAddr: nat, rssi: int, lqi: byte, now: int): State {
    var ext := if extAddr == 0 && addr in st.neighbors then st.neighbors[addr].extAddr else extAddr;
    st.(neighbors := st.neighbors[addr := Neighbor(addr, ext, rssi, lqi, now)])
  }

  /** A reception; no extended address comes with it. */
  function Heard(st: State, addr: word, rssi: int, lqi: byte, now: int): State { Learnt(st, addr, 0, rssi, lqi, now) }

  predicate IsManyToOne(body: seq<byte>) { |body| >= 2 && body[0] == CMD_MTO_ROUTE_REQUEST }

  predicate IsRouteRecord(body: seq<byte>) {
    |body| >= 2 && body[0] == CMD_ROUTE_RECORD && |body| >= 2 + 2 * (body[1] as int)
  }

  function RecordedHops(body: seq<byte>): seq<word>
    requires IsRouteRecord(body)
  {
    ReadWords(body, 2, body[1])
  }

  predicate IsCommand(body: seq<byte>) { |body| > 0 && CMD_ROUTE_REQUEST <= body[0] <= CMD_LINK_STATUS }

  function ManyToOne(st: State, h: Header, body: seq<byte>): Effect {
    if |body| < 2 then Unchanged(st)
    else
      var st' := SetRoute(st, h.src, h.src, [], true);
      if h.radius > 1 then Broadcast(st', body, 0) else Unchanged(st')
  }

  function Record(st: State, h: Header, body: seq<byte>): State {
    if |body| < 2 || |body| < 2 + 2 * (body[1] as int) then st
    else SetRoute(st, h.src, h.src, ReadWords(body, 2, body[1]), false)
  }

  function RouteError(st: State, body: seq<byte>): State {
    if |body| < 5 || Word(body[1], body[2]) != st.own then st else Repair(st, Word(body[3], body[4]))
  }

  function Command(st: State, h: Header, body: seq<byte>): Effect
    requires IsCommand(body)
  {
    if body[0] == CMD_MTO_ROUTE_REQUEST then ManyToOne(st, h, body)
    else if body[0] == CMD_ROUTE_RECORD then Unchanged(Record(st, h, body))
    else if body[0] == CMD_ROUTE_ERROR then Unchanged(RouteError(st, body))
    else Unchanged(st)
  }

  /** The position of the first occurrence of a in ws, or the length. */
  function IndexOf(ws: seq<word>, a: word): (i: nat)
    ensures i <= |ws| && a !in ws[..i] && (i < |ws| ==> ws[i] == a)
  {
    if ws == [] || ws[0] == a then 0
    else
      var i := 1 + IndexOf(ws[1..], a);
      assert ws[..i] == [ws[0]] + ws[1..][..i - 1];
      i
  }

  function Forward(st: State, p: Parsed, frame: seq<byte>): Effect {
    if p.route != [] then
      var i := IndexOf(p.route, st.own);
      if i + 1 < |p.route| then Send(st, frame, p.route[i + 1], 0) else Unchanged(st)
    else if HasRoute(st, p.hdr.dst) then Send(st, frame, st.routes[p.hdr.dst].nextHop, 0)
    else Unchanged(Repair(st, p.hdr.dst))
  }

  function Deliver(st: State, h: Header, body: seq<byte>): Effect {
    if st.callback && body != [] then Unchanged(st).(ups := [Delivery(body, h.src, h.dst)]) else Unchanged(st)
  }

  /** handleInboundMacFrame; the stub decryption leaves the frame as it is. */
  function Inbound(st: State, frame: seq<byte>, rssi: int, lqi: byte, now: int): Effect {
    match Parse(frame)
    case None => Unchanged(st)
    case Some(p) =>
      var heard := Heard(st, p.hdr.src, rssi, lqi, now);
      var body := frame[p.headerLen..];
      if IsCommand(body) then Command(heard, p.hdr, body)
      else if p.hdr.dst == st.own || p.hdr.dst == BROADCAST then Deliver(heard, p.hdr, body)
      else Forward(heard, p, frame)
  }

  // ---- maintenance -----------------------------------------------------------------

  /** order lists the keys once each: the iteration order of the container, which is unspecified. */
  ghost predicate Enumerates(order: seq<word>, keys: set<word>) {
    (forall k :: k in order <==> k in keys) && (forall i, j :: 0 <= i < j < |order| ==> order[i] != order[j])
  }

  function LinkQualities(order: seq<word>, neighbors: map<word, Neighbor>): seq<byte>
    requires forall k :: k in order ==> k in neighbors
  {
    if order == [] then []
    else
      var k := order[|order| - 1];
      LinkQualities(order[..|order| - 1], neighbors) + [Lo(k), Hi(k), neighbors[k].linkQuality]
  }

  function LinkStatus(st: State, order: seq<word>): Effect
    requires forall k :: k in order ==> k in st.neighbors
  {
    Broadcast(st, [CMD_LINK_STATUS, Truncate(|st.neighbors|)] + LinkQualities(order, st.neighbors), 2)
  }

  predicate Stale(n: Neighbor, now: int) { now - n.lastHeard > STALE_TIMEOUT }

  function Prune(st: State, now: int): State {
    st.(neighbors := map k | k in st.neighbors && !Stale(st.neighbors[k], now) :: st.neighbors[k])
  }

  // ---- runs ------------------------------------------------------------------------

  /** One public step, or one piece of the maintenance thread's round. */
  datatype Action =
    | Start
    | Stop
    | SetCallback(present: bool)
    | SendNwkFrame(payload: seq<byte>, dst: word, radius: byte)
    | RepairRoute(dst: word)
    | ManyToOneDiscovery(radius: byte)
    | MacFrame(frame: seq<byte>, rssi: int, lqi: byte, now: int)
    | SendLinkStatus(order: seq<word>)
    | PruneNeighbors(now: int)

  ghost predicate Enabled(st: State, a: Action) { a.SendLinkStatus? ==> Enumerates(a.order, st.neighbors.Keys) }

  function Step(st: State, a: Action): Effect
    requires Enabled(st, a)
  {
    match a
    case Start => Unchanged(st.(running := true))
    case Stop => Unchanged(st.(running := false))
    case SetCallback(present) => Unchanged(st.(callback := present))
    case SendNwkFrame(payload, dst, radius) => Send(st, payload, dst, radius)
    case RepairRoute(dst) => Unchanged(Repair(st, dst))
    case ManyToOneDiscovery(radius) => Send(st, [CMD_MTO_ROUTE_REQUEST, radius], BROADCAST, 0)
    case MacFrame(frame, rssi, lqi, now) => Inbound(st, frame, rssi, lqi, now)
    case SendLinkStatus(order) => LinkStatus(st, order)
    case PruneNeighbors(now) => Unchanged(Prune(st, now))
  }

  function Initial(own: word): State { State(own, false, false, map[], map[], 0) }

  ghost predicate Feasible(st: State, run: seq<Action>)
    decreases |run|, 0
  {
    run == [] ||
    (Feasible(st, run[..|run| - 1]) && Enabled(Run(st, run[..|run| - 1]).state, run[|run| - 1]))
  }

  /** A whole run: the last state, everything emitted, asked for and delivered on the way. */
  ghost function Run(st: State, run: seq<Action>): Effect
    requires Feasible(st, run)
    decreases |run|, 1
  {
    if run == [] then Unchanged(st)
    else
      var before := Run(st, run[..|run| - 1]);
      var last := Step(before.state, run[|run| - 1]);
      Effect(last.state, before.frames + last.frames, before.requests + last.requests, before.ups + last.ups)
  }
}
