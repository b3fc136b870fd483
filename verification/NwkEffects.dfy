/**
 What the operations of the network layer do, told without their own definitions: by the fields of
 the state and by the octets of the frames.
 */
module NwkEffects {
  import opened Bytes
  import opened NwkFrame
  import opened NwkModel
  import opened NwkProperties
  import opened NwkFrames

  // ---- frames by their octets ----------------------------------------------------------

  /** The octets of an unsecured frame with these fields, hops and payload. */
  predicate OnAir(f: seq<byte>, seqNum: byte, dst: word, src: word, radius: byte, hops: seq<word>, payload: seq<byte>) {
    var head := if hops == [] then 7 else 9 + 2 * |hops|;
    && |hops| <= 255 && |f| == head + |payload| && f[head..] == payload
    && f[0] == (if hops == [] then 0x00 else 0x08)
    && f[1] == seqNum && Word(f[2], f[3]) == dst && Word(f[4], f[5]) == src && f[6] == radius
    && (hops != [] ==> f[7] == 0x04 && f[8] == |hops|)
    && forall i :: 0 <= i < |hops| ==> HopAt(f, i) == hops[i]
  }

  /** The hop number i of a frame that is long enough to have it. */
  function HopAt(f: seq<byte>, i: nat): word { if 11 + 2 * i <= |f| then Word(f[9 + 2 * i], f[10 + 2 * i]) else 0 }

  lemma {:induction false} WordBytesAt(ws: seq<word>, i: nat)
    requires i < |ws|
    ensures Word(WordBytes(ws)[2 * i], WordBytes(ws)[2 * i + 1]) == ws[i]
  {
    hide Word, Lo, Hi;
    var k := |ws| - 1;
    if i < k {
      WordBytesAt(ws[..k], i);
    } else {
      Digits(ws[k], 0, 0, 0);
    }
  }

  lemma FixedOnAir(seqNum: byte, dst: word, src: word, radius: byte, route: seq<word>)
    ensures var f := Fixed(Outgoing(seqNum, dst, src, radius, route));
            && f[0] == (if route == [] then 0x00 else 0x08)
            && f[1] == seqNum && Word(f[2], f[3]) == dst && Word(f[4], f[5]) == src && f[6] == radius
  {
  }

  lemma BuildOnAir(payload: seq<byte>, seqNum: byte, dst: word, src: word, radius: byte, hops: seq<word>)
    requires |hops| <= 255
    ensures OnAir(Build(payload, Outgoing(seqNum, dst, src, radius, hops), hops),
                  seqNum, dst, src, radius, hops, payload)
  {
    hide Fixed, WordBytes, Word;
    var h := Outgoing(seqNum, dst, src, radius, hops);
    FixedOnAir(seqNum, dst, src, radius, hops);
    if hops == [] {
      assert Build(payload, h, hops) == Fixed(h) + payload;
    } else {
      var start := Fixed(h) + ExtensionHead(|hops|);
      var f := Build(payload, h, hops);
      assert f == start + WordBytes(hops) + payload;
      assert f[..9] == start;
      forall i | 0 <= i < |hops| ensures HopAt(f, i) == hops[i] {
        WordBytesAt(hops, i);
      }
    }
  }

  /** Every octet of the header matters to the parser as the layout says, also when it is cut short. */
  lemma ParsedByOctets(f: seq<byte>)
    ensures Parse(f).None? <==>
            |f| < 7 || ((f[0] / 8) % 2 == 1 && |f| >= 9 && f[7] == 0x04 && |f| < 9 + 2 * (f[8] as int))
    ensures Parse(f).Some? ==>
              var p := Parse(f).value;
              && (p.hdr.security <==> f[0] % 2 == 1) && (p.hdr.sourceRoute <==> (f[0] / 8) % 2 == 1)
              && p.hdr.seqNum == f[1] && p.hdr.dst == Word(f[2], f[3]) && p.hdr.src == Word(f[4], f[5])
              && p.hdr.radius == f[6]
              && (if (f[0] / 8) % 2 == 1 && |f| >= 9 && f[7] == 0x04
                  then
                    && |p.route| == f[8] as int && p.headerLen == 9 + 2 * |p.route|
                    && forall i :: 0 <= i < |p.route| ==> p.route[i] == HopAt(f, i)
                  else p.route == [] && p.headerLen == 7)
  {
    hide ReadWords, Word;
    if |f| >= 9 && |f| >= HopsEnd(f[8]) {
      HopsRead(f, f[8]);
    }
  }

  lemma {:induction false} HopsRead(f: seq<byte>, n: nat)
    requires 9 + 2 * n <= |f|
    ensures forall i :: 0 <= i < n ==> ReadWords(f, 9, n)[i] == HopAt(f, i)
    decreases n
  {
    hide Word;
    if n > 0 {
      HopsRead(f, n - 1);
    }
  }

  // ---- the words the rest is told in -----------------------------------------------------

  /** No change and no output; the entry made for a new address; what counts as a command; who was heard. */
  lemma InFields(st: State, addr: word, body: seq<byte>, rssi: int, lqi: byte, now: int)
    ensures Unchanged(st) == Effect(st, [], [], [])
    ensures Entry(st, addr) == if addr in st.routes then st.routes[addr] else Route(0, 0, IDLE, 0, false, [])
    ensures IsCommand(body) <==> body != [] && 1 <= body[0] <= 6
    ensures var known := if addr in st.neighbors then st.neighbors[addr].extAddr else 0;
            Heard(st, addr, rssi, lqi, now) ==
            st.(neighbors := st.neighbors[addr := Neighbor(addr, known, rssi, lqi, now)])
  {
  }

  // ---- sending -------------------------------------------------------------------------

  /** One frame goes out under the current number, which moves on; nothing else happens. */
  predicate SendsOne(st: State, e: Effect, dst: word, radius: byte, hops: seq<word>, payload: seq<byte>) {
    && e.state == st.(seqNum := (st.seqNum + 1) % 0x100)
    && |e.frames| == 1 && OnAir(e.frames[0], st.seqNum, dst, st.own, radius, hops, payload)
    && e.ups == []
  }

  /** A node that is not running, or has no address, sends nothing. */
  lemma SendRefused(st: State, payload: seq<byte>, dst: word, radius: byte)
    requires !st.running || st.own == 0xFFFF
    ensures Send(st, payload, dst, radius) == Unchanged(st)
  {
  }

  /**
   Otherwise a broadcast, or a frame to an ACTIVE destination, goes out as one frame with the hops
   stored and the radius given, 10 if that is zero.
   */
  lemma SendGoesOut(st: State, payload: seq<byte>, dst: word, radius: byte)
    requires st.running && st.own != 0xFFFF
    requires dst == 0xFFFF || (dst in st.routes && st.routes[dst].state.ACTIVE? && |st.routes[dst].sourceRoute| <= 255)
    ensures var e := Send(st, payload, dst, radius);
            && SendsOne(st, e, dst, if radius == 0 then 10 else radius,
                        if dst == 0xFFFF then [] else st.routes[dst].sourceRoute, payload)
            && e.requests == []
  {
    hide Build, OnAir;
    BuildOnAir(payload, st.seqNum, dst, st.own, RadiusOr(radius), RouteTo(st, dst));
  }

  /** The octets of a route request for dst. */
  predicate AsksFor(p: seq<byte>, n: byte, dst: word) {
    |p| == 4 && p[0] == 0x01 && p[1] == n && Word(p[2], p[3]) == dst
  }

  /**
   A discovery does nothing while one is under way or the entry is under repair; otherwise the entry
   is marked and numbered, and a running node with an address broadcasts a request for just that
   destination.
   */
  lemma DiscoverEffect(st: State, dst: word)
    ensures var e := Discover(st, dst);
            var r := Entry(st, dst);
            var n := (r.discoverySeq + 1) % 0x100;
            var marked := st.(routes := st.routes[dst := r.(state := DISCOVERY_IN_PROGRESS, discoverySeq := n)]);
            if r.state.DISCOVERY_IN_PROGRESS? || r.state.REPAIR_IN_PROGRESS? then e == Unchanged(st)
            else
              && e.requests == [dst]
              && if !st.running || st.own == 0xFFFF then e.state == marked && e.frames == [] && e.ups == []
                 else exists p :: AsksFor(p, n, dst) && SendsOne(marked, e, 0xFFFF, 10, [], p)
  {
    hide Build, OnAir, Word;
    var n := (Entry(st, dst).discoverySeq + 1) % 0x100;
    var p := RouteRequest(n, dst);
    BuildOnAir(p, st.seqNum, 0xFFFF, st.own, 10, []);
    Digits(dst, 0, 0, 0);
    assert AsksFor(p, n, dst);
  }

  /** A frame to any other destination is dropped, and the destination looked for instead. */
  lemma SendLooks(st: State, payload: seq<byte>, dst: word, radius: byte)
    requires st.running && st.own != 0xFFFF && dst != 0xFFFF
    requires dst !in st.routes || !st.routes[dst].state.ACTIVE?
    ensures Send(st, payload, dst, radius) == Discover(st, dst)
  {
  }

  /** The one frame of a step that asks for d is a broadcast of radius 10 whose payload asks for d, numbered 1. */
  lemma RequestByOctets(st: State, a: Action, d: word)
    requires Inv(st) && Enabled(st, a) && Step(st, a).requests == [d]
    ensures var frames := Step(st, a).frames;
            |frames| == 1 && exists p :: AsksFor(p, 1, d) && OnAir(frames[0], st.seqNum, 0xFFFF, st.own, 10, [], p)
  {
    hide Step, Enabled, Inv, Build, OnAir, Word;
    RequestIsBroadcast(st, a, d);
    var p := RouteRequest(1, d);
    BuildOnAir(p, st.seqNum, 0xFFFF, st.own, 10, []);
    Digits(d, 0, 0, 0);
    assert AsksFor(p, 1, d);
  }

  /** The many-to-one request this node starts. */
  lemma ManyToOneSent(st: State, radius: byte)
    requires st.running && st.own != 0xFFFF
    ensures SendsOne(st, Step(st, ManyToOneDiscovery(radius)), 0xFFFF, 10, [], [0x03, radius])
  {
    hide Build, OnAir;
    SendGoesOut(st, [0x03, radius], 0xFFFF, 0);
  }

  // ---- the route table -----------------------------------------------------------------

  /** All that setRoute and repairRoute do. */
  lemma TableEffects(st: State, dst: word, nextHop: word, hops: seq<word>, mto: bool)
    ensures SetRoute(st, dst, nextHop, hops, mto) ==
            st.(routes := st.routes[dst := Route(dst, nextHop, ACTIVE, Entry(st, dst).discoverySeq, mto, hops)])
    ensures dst !in st.routes ==> Repair(st, dst) == st
    ensures dst in st.routes ==>
              Repair(st, dst) == st.(routes := st.routes[dst := st.routes[dst].(state := REPAIR_IN_PROGRESS)])
  {
  }

  // ---- receiving -----------------------------------------------------------------------

  /** A neighbour entry holds the latest reception, and an extended address until another one is learnt. */
  lemma LearntEffect(st: State, addr: word, ext: nat, rssi: int, lqi: byte, now: int)
    ensures var known := if addr in st.neighbors then st.neighbors[addr].extAddr else 0;
            Learnt(st, addr, ext, rssi, lqi, now) ==
            st.(neighbors := st.neighbors[addr := Neighbor(addr, if ext == 0 then known else ext, rssi, lqi, now)])
  {
  }

  /** A frame that does not parse changes nothing. */
  lemma UnparsedIgnored(st: State, frame: seq<byte>, rssi: int, lqi: byte, now: int)
    requires Parse(frame).None?
    ensures Inbound(st, frame, rssi, lqi, now) == Unchanged(st)
  {
  }

  /** A many-to-one request of two octets or more: a route to its sender, and a re-broadcast above radius one. */
  lemma ManyToOneEffect(st: State, frame: seq<byte>, h: Header, hops: seq<word>, body: seq<byte>,
                        rssi: int, lqi: byte, now: int)
    requires ReadsAs(frame, h, hops, body) && |body| >= 2 && body[0] == 0x03
    ensures var e := Inbound(st, frame, rssi, lqi, now);
            var heard := Heard(st, h.src, rssi, lqi, now);
            var r := Route(h.src, h.src, ACTIVE, Entry(st, h.src).discoverySeq, true, []);
            var routed := heard.(routes := st.routes[h.src := r]);
            && e.requests == []
            && if h.radius > 1 && st.running && st.own != 0xFFFF then SendsOne(routed, e, 0xFFFF, 10, [], body)
               else e.state == routed && e.frames == [] && e.ups == []
  {
    hide Parse, Build, OnAir;
    BuildOnAir(body, st.seqNum, 0xFFFF, st.own, 10, []);
  }

  /** A route record whose hops are all there: a route to its sender along them. */
  lemma RecordEffect(st: State, frame: seq<byte>, h: Header, hops: seq<word>, body: seq<byte>, listed: seq<word>,
                     rssi: int, lqi: byte, now: int)
    requires ReadsAs(frame, h, hops, body) && |body| >= 2 + 2 * |listed| && body[0] == 0x04 && body[1] == |listed|
    requires forall i :: 0 <= i < |listed| ==> listed[i] == ListedAt(body, i)
    ensures var e := Inbound(st, frame, rssi, lqi, now);
            var r := Route(h.src, h.src, ACTIVE, Entry(st, h.src).discoverySeq, false, listed);
            && e.state == Heard(st, h.src, rssi, lqi, now).(routes := st.routes[h.src := r])
            && e.frames == [] && e.requests == [] && e.ups == []
  {
    hide Parse, ReadWords, Word;
    ListRead(body, |listed|);
    assert ReadWords(body, 2, |listed|) == listed;
  }

  /** The address number i after the two octets in front. */
  function ListedAt(body: seq<byte>, i: nat): word {
    if 4 + 2 * i <= |body| then Word(body[2 + 2 * i], body[3 + 2 * i]) else 0
  }

  lemma {:induction false} ListRead(body: seq<byte>, n: nat)
    requires 2 + 2 * n <= |body|
    ensures forall i :: 0 <= i < n ==> ReadWords(body, 2, n)[i] == ListedAt(body, i)
    decreases n
  {
    hide Word;
    if n > 0 {
      ListRead(body, n - 1);
    }
  }

  /** A route error of five octets or more that names this node as origin: the broken entry is under repair. */
  lemma ErrorEffect(st: State, frame: seq<byte>, h: Header, hops: seq<word>, body: seq<byte>,
                    rssi: int, lqi: byte, now: int)
    requires ReadsAs(frame, h, hops, body) && |body| >= 5 && body[0] == 0x05
    ensures var e := Inbound(st, frame, rssi, lqi, now);
            var heard := Heard(st, h.src, rssi, lqi, now);
            var broken := Word(body[3], body[4]);
            && e.frames == [] && e.requests == [] && e.ups == []
            && e.state ==
               if Word(body[1], body[2]) == st.own && broken in st.routes
               then heard.(routes := st.routes[broken := st.routes[broken].(state := REPAIR_IN_PROGRESS)])
               else heard
  {
    hide Parse, Word;
  }

  /** Every other command, and one of these too short for its contents, only makes the sender a neighbour. */
  lemma OtherCommandEffect(st: State, frame: seq<byte>, h: Header, hops: seq<word>, body: seq<byte>,
                           rssi: int, lqi: byte, now: int)
    requires ReadsAs(frame, h, hops, body) && IsCommand(body)
    requires body[0] == 0x03 ==> |body| < 2
    requires body[0] == 0x04 ==> |body| < 2 || |body| < 2 + 2 * (body[1] as int)
    requires body[0] == 0x05 ==> |body| < 5
    ensures var e := Inbound(st, frame, rssi, lqi, now);
            e.state == Heard(st, h.src, rssi, lqi, now) && e.frames == [] && e.requests == [] && e.ups == []
  {
    hide Parse, ReadWords;
  }

  /** Any other payload for this node or for all goes up, if it is not empty and somebody listens. */
  lemma DeliveryEffect(st: State, frame: seq<byte>, h: Header, hops: seq<word>, body: seq<byte>,
                       rssi: int, lqi: byte, now: int)
    requires ReadsAs(frame, h, hops, body) && !IsCommand(body) && (h.dst == st.own || h.dst == 0xFFFF)
    ensures var e := Inbound(st, frame, rssi, lqi, now);
            && e.state == Heard(st, h.src, rssi, lqi, now) && e.frames == [] && e.requests == []
            && e.ups == if st.callback && body != [] then [Delivery(body, h.src, h.dst)] else []
  {
    hide Parse;
  }

  // ---- forwarding ----------------------------------------------------------------------

  /** h is the hop after the first place this node has among the hops. */
  predicate NextAfter(own: word, hops: seq<word>, i: nat, next: word) {
    i + 1 < |hops| && hops[i] == own && own !in hops[..i] && hops[i + 1] == next
  }

  lemma NotAmong(hops: seq<word>, own: word, n: nat, j: nat)
    requires j < n <= |hops| && own !in hops[..n]
    ensures hops[j] != own
  {
    assert hops[..n][j] in hops[..n];
  }

  lemma {:induction false} IndexIs(hops: seq<word>, own: word, i: nat)
    requires i < |hops| && hops[i] == own && own !in hops[..i]
    ensures IndexOf(hops, own) == i
    decreases i
  {
    if i > 0 {
      NotAmong(hops, own, i, 0);
      assert hops[..i] == [hops[0]] + hops[1..][..i - 1];
      IndexIs(hops[1..], own, i - 1);
    }
  }

  /** A frame for another node is sent on, whole, to the hop its source route names after this node. */
  lemma ForwardAlongHops(st: State, frame: seq<byte>, h: Header, hops: seq<word>, body: seq<byte>,
                         i: nat, next: word, rssi: int, lqi: byte, now: int)
    requires ReadsAs(frame, h, hops, body) && !IsCommand(body) && h.dst != st.own && h.dst != 0xFFFF
    requires NextAfter(st.own, hops, i, next)
    ensures Inbound(st, frame, rssi, lqi, now) == Send(Heard(st, h.src, rssi, lqi, now), frame, next, 0)
  {
    hide Parse, Send;
    IndexIs(hops, st.own, i);
  }

  /** Without a source route, it is sent on to the next hop of an ACTIVE entry for its destination. */
  lemma ForwardAlongEntry(st: State, frame: seq<byte>, h: Header, body: seq<byte>, rssi: int, lqi: byte, now: int)
    requires ReadsAs(frame, h, [], body) && !IsCommand(body) && h.dst != st.own && h.dst != 0xFFFF
    requires h.dst in st.routes && st.routes[h.dst].state.ACTIVE?
    ensures Inbound(st, frame, rssi, lqi, now) ==
            Send(Heard(st, h.src, rssi, lqi, now), frame, st.routes[h.dst].nextHop, 0)
  {
    hide Parse, Send;
  }

  /** Whether frames on the way can be sent on to next. */
  predicate Passable(st: State, next: word) {
    && st.running && st.own != 0xFFFF
    && next in st.routes && st.routes[next].state.ACTIVE? && |st.routes[next].sourceRoute| <= 255
  }

  /**
   In either case, with a route to that hop, what leaves is one frame from this node to it, of radius
   10, along the hops stored for it, and its payload is the frame received, header and all.
   */
  lemma ForwardedWhole(st: State, frame: seq<byte>, h: Header, hops: seq<word>, body: seq<byte>,
                       i: nat, next: word, rssi: int, lqi: byte, now: int)
    requires ReadsAs(frame, h, hops, body) && !IsCommand(body) && h.dst != st.own && h.dst != 0xFFFF
    requires if hops != [] then NextAfter(st.own, hops, i, next)
             else h.dst in st.routes && st.routes[h.dst].state.ACTIVE? && st.routes[h.dst].nextHop == next
    requires next != 0xFFFF && Passable(st, next)
    ensures var e := Inbound(st, frame, rssi, lqi, now);
            && SendsOne(Heard(st, h.src, rssi, lqi, now), e, next, 10, st.routes[next].sourceRoute, frame)
            && e.requests == []
  {
    hide Parse, Send, OnAir, Inbound;
    if hops != [] {
      ForwardAlongHops(st, frame, h, hops, body, i, next, rssi, lqi, now);
    } else {
      ForwardAlongEntry(st, frame, h, body, rssi, lqi, now);
    }
    SendGoesOut(Heard(st, h.src, rssi, lqi, now), frame, next, 0);
  }

  /** Otherwise it is dropped: the hops do not lead on from here, or no entry is ACTIVE and any there is is marked. */
  lemma NotForwarded(st: State, frame: seq<byte>, h: Header, hops: seq<word>, body: seq<byte>,
                     rssi: int, lqi: byte, now: int)
    requires ReadsAs(frame, h, hops, body) && !IsCommand(body) && h.dst != st.own && h.dst != 0xFFFF
    requires if hops != [] then st.own !in hops[..|hops| - 1]
             else h.dst in st.routes ==> !st.routes[h.dst].state.ACTIVE?
    ensures var e := Inbound(st, frame, rssi, lqi, now);
            var heard := Heard(st, h.src, rssi, lqi, now);
            && e.frames == [] && e.requests == [] && e.ups == []
            && e.state ==
               if hops == [] && h.dst in st.routes
               then heard.(routes := st.routes[h.dst := st.routes[h.dst].(state := REPAIR_IN_PROGRESS)])
               else heard
  {
    hide Parse, Send;
    if hops != [] {
      var k := IndexOf(hops, st.own);
      if k + 1 < |hops| {
        NotAmong(hops, st.own, |hops| - 1, k);
      }
    }
  }

  // ---- maintenance ---------------------------------------------------------------------

  /** A pruning removes exactly the entries last heard more than 300 s ago, in nanoseconds, and touches nothing else. */
  lemma PruneEffect(st: State, now: int, addr: word)
    ensures addr in Prune(st, now).neighbors <==>
            addr in st.neighbors && now - st.neighbors[addr].lastHeard <= 300_000_000_000
    ensures addr in Prune(st, now).neighbors ==> Prune(st, now).neighbors[addr] == st.neighbors[addr]
    ensures Prune(st, now) == st.(neighbors := Prune(st, now).neighbors)
  {
  }

  /** The steps that only turn something on or off. */
  lemma SwitchEffects(st: State, present: bool)
    ensures Step(st, Start) == Effect(st.(running := true), [], [], [])
    ensures Step(st, Stop) == Effect(st.(running := false), [], [], [])
    ensures Step(st, SetCallback(present)) == Effect(st.(callback := present), [], [], [])
  {
  }
}
