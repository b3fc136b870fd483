/**
 The device object: the table of endpoints of this node, and the two requests that search it.
 */
module Zdo {
  import opened Bytes
  import opened NwkModel
  import opened NwkProperties
  import opened Aps

  datatype SimpleDescriptor =
    SimpleDescriptor(endpoint: byte, profileId: word, inClusters: seq<word>, outClusters: seq<word>)

  /** eps lists the keys once each, in the unspecified order of the container. */
  ghost predicate Lists(eps: seq<byte>, keys: set<byte>) {
    (forall ep :: ep in eps <==> ep in keys) && Distinct(eps)
  }

  ghost predicate Distinct(eps: seq<byte>) { forall i, j :: 0 <= i < j < |eps| ==> eps[i] != eps[j] }

  /** Every descriptor is stored under its own endpoint. */
  predicate Keyed(table: map<byte, SimpleDescriptor>) { forall ep :: ep in table ==> table[ep].endpoint == ep }

  class ZdoEndpointTable {
    var epMap: map<byte, SimpleDescriptor>

    ghost predicate Valid()
      reads this
    {
      Keyed(epMap)
    }

    constructor ()
      ensures Valid() && epMap == map[]
    {
      epMap := map[];
    }

    method AddSimpleDescriptor(desc: SimpleDescriptor)
      requires Valid()
      modifies this
      ensures Valid() && epMap == old(epMap)[desc.endpoint := desc]
    {
      epMap := epMap[desc.endpoint := desc];
    }

    method GetSimpleDescriptor(endpoint: byte) returns (found: bool, desc: SimpleDescriptor)
      ensures found <==> endpoint in epMap
      ensures found ==> desc == epMap[endpoint]
    {
      if endpoint !in epMap {
        return false, SimpleDescriptor(0, 0, [], []);
      }
      return true, epMap[endpoint];
    }

    method GetActiveEndpoints() returns (eps: seq<byte>)
      ensures Lists(eps, epMap.Keys)
    {
      eps := [];
      var left := epMap.Keys;
      while left != {}
        invariant left <= epMap.Keys
        invariant Lists(eps, epMap.Keys - left)
        decreases |left|
      {
        var ep :| ep in left;
        eps := eps + [ep];
        left := left - {ep};
      }
    }
  }

  // ---- the match request -------------------------------------------------------------

  datatype MatchRequest = MatchRequest(target: word, profile: word, inClusters: seq<word>, outClusters: seq<word>)

  /** Where the output list of a match request starts, and where it ends. */
  function InEnd(p: seq<byte>): nat
    requires |p| >= 5
  {
    5 + 2 * (p[4] as int)
  }

  function OutEnd(p: seq<byte>): nat
    requires |p| >= 5 && |p| > InEnd(p)
  {
    InEnd(p) + 1 + 2 * (p[InEnd(p)] as int)
  }

  function ParseMatch(p: seq<byte>): Option<MatchRequest> {
    if |p| < 5 || |p| < InEnd(p) || |p| < InEnd(p) + 1 || |p| < OutEnd(p) then None
    else Some(MatchRequest(Word(p[0], p[1]), Word(p[2], p[3]),
                           ReadWords(p, 5, p[4]), ReadWords(p, InEnd(p) + 1, p[InEnd(p)])))
  }

  function MatchHead(r: MatchRequest): (bs: seq<byte>)
    ensures |bs| == 5
  {
    [Lo(r.target), Hi(r.target), Lo(r.profile), Hi(r.profile), Truncate(|r.inClusters|)]
  }

  function CountByte(n: nat): (bs: seq<byte>)
    ensures |bs| == 1
  {
    [Truncate(n)]
  }

  /** How section 2.4.3.1.7 of the Zigbee Specification lays the request out. */
  function EncodeMatch(r: MatchRequest): seq<byte> {
    MatchHead(r) + WordBytes(r.inClusters) + CountByte(|r.outClusters|) + WordBytes(r.outClusters)
  }

  lemma HeadBack(r: MatchRequest, rest: seq<byte>)
    requires |r.inClusters| <= 255
    ensures var p := MatchHead(r) + rest;
            && Word(p[0], p[1]) == r.target && Word(p[2], p[3]) == r.profile && p[4] as int == |r.inClusters|
  {
  }

  lemma InsBack(r: MatchRequest, rest: seq<byte>)
    requires |r.inClusters| <= 255
    ensures var p := MatchHead(r) + WordBytes(r.inClusters) + rest;
            ReadWords(p, 5, |r.inClusters|) == r.inClusters && |p| == 5 + 2 * |r.inClusters| + |rest|
  {
    hide WordBytes, ReadWords, MatchHead;
    ReadWritten(MatchHead(r), r.inClusters, rest);
  }

  lemma OutsBack(pre: seq<byte>, outs: seq<word>, rest: seq<byte>)
    requires |outs| <= 255
    ensures var p := pre + CountByte(|outs|) + WordBytes(outs) + rest;
            && |p| == |pre| + 1 + 2 * |outs| + |rest|
            && p[|pre|] as int == |outs| && ReadWords(p, |pre| + 1, |outs|) == outs
  {
    hide WordBytes, ReadWords;
    ReadWritten(pre + CountByte(|outs|), outs, rest);
  }

  /** The word number i from offset on. */
  function WordAt(p: seq<byte>, from: nat, i: nat): word {
    if from + 2 * i + 2 <= |p| then Word(p[from + 2 * i], p[from + 2 * i + 1]) else 0
  }

  lemma {:induction false} WordsRead(p: seq<byte>, from: nat, n: nat)
    requires from + 2 * n <= |p|
    ensures forall i :: 0 <= i < n ==> ReadWords(p, from, n)[i] == WordAt(p, from, i)
    decreases n
  {
    hide Word;
    if n > 0 {
      WordsRead(p, from, n - 1);
    }
  }

  /** Which octets of a match request are what, and which requests are too short. */
  lemma MatchByOctets(p: seq<byte>)
    ensures ParseMatch(p).None? <==>
            || |p| < 6 || |p| < 6 + 2 * (p[4] as int)
            || |p| < 6 + 2 * (p[4] as int) + 2 * (p[5 + 2 * (p[4] as int)] as int)
    ensures ParseMatch(p).Some? ==>
              var r := ParseMatch(p).value;
              var mid := 5 + 2 * |r.inClusters|;
              && r.target == Word(p[0], p[1]) && r.profile == Word(p[2], p[3])
              && p[4] == |r.inClusters| && (forall i :: 0 <= i < |r.inClusters| ==> r.inClusters[i] == WordAt(p, 5, i))
              && p[mid] == |r.outClusters|
              && (forall i :: 0 <= i < |r.outClusters| ==> r.outClusters[i] == WordAt(p, mid + 1, i))
  {
    hide ReadWords, Word, WordAt;
    if ParseMatch(p).Some? {
      WordsRead(p, 5, p[4]);
      WordsRead(p, InEnd(p) + 1, p[InEnd(p)]);
    }
  }

  /** A descriptor matches by its profile and, for each list asked about, a cluster of its own list of that kind. */
  lemma MatchesByClusters(d: SimpleDescriptor, r: MatchRequest)
    ensures Matches(d, r) <==>
            && d.profileId == r.profile
            && (r.inClusters == [] || exists i, j :: 0 <= i < |d.inClusters| && 0 <= j < |r.inClusters| &&
                                                     d.inClusters[i] == r.inClusters[j])
            && (r.outClusters == [] || exists i, j :: 0 <= i < |d.outClusters| && 0 <= j < |r.outClusters| &&
                                                       d.outClusters[i] == r.outClusters[j])
  {
    MeetByPlace(d.inClusters, r.inClusters);
    MeetByPlace(d.outClusters, r.outClusters);
  }

  lemma MeetByPlace(a: seq<word>, b: seq<word>)
    ensures Meet(a, b) <==> exists i, j :: 0 <= i < |a| && 0 <= j < |b| && a[i] == b[j]
  {
    if Meet(a, b) {
      var c :| c in a && c in b;
      var i :| 0 <= i < |a| && a[i] == c;
      var j :| 0 <= j < |b| && b[j] == c;
    } else {
      forall i, j | 0 <= i < |a| && 0 <= j < |b| ensures a[i] != b[j] {
        assert a[i] in a && b[j] in b;
      }
    }
  }

  lemma ParseEncodedMatch(r: MatchRequest, rest: seq<byte>)
    requires |r.inClusters| <= 255 && |r.outClusters| <= 255
    ensures ParseMatch(EncodeMatch(r) + rest) == Some(r)
  {
    hide WordBytes, ReadWords, MatchHead, CountByte, Word;
    var head, ins := MatchHead(r), WordBytes(r.inClusters);
    var tail := CountByte(|r.outClusters|) + WordBytes(r.outClusters) + rest;
    var p := EncodeMatch(r) + rest;
    assert p == head + (ins + tail);
    HeadBack(r, ins + tail);
    assert p == head + ins + tail;
    InsBack(r, tail);
    assert p == (head + ins) + CountByte(|r.outClusters|) + WordBytes(r.outClusters) + rest;
    OutsBack(head + ins, r.outClusters, rest);
  }

  lemma CutUp(p: seq<byte>, mid: nat, end: nat)
    requires 5 <= mid < end <= |p|
    ensures p[..5] + p[5..mid] + p[mid..mid + 1] + p[mid + 1..end] == p[..end]
  {
  }

  lemma HeadForth(p: seq<byte>)
    requires ParseMatch(p).Some?
    ensures MatchHead(ParseMatch(p).value) == p[..5]
  {
    hide ReadWords, Word, Lo, Hi;
    OctetsBack(p[0], p[1]);
    OctetsBack(p[2], p[3]);
    assert p[..5] == [p[0], p[1], p[2], p[3], p[4]];
  }

  lemma EncodeParsedMatch(p: seq<byte>)
    requires ParseMatch(p).Some?
    ensures var r := ParseMatch(p).value;
            |r.inClusters| <= 255 && |r.outClusters| <= 255 && EncodeMatch(r) <= p
  {
    hide WordBytes, ReadWords, MatchHead;
    var mid, end := InEnd(p), OutEnd(p);
    var r := ParseMatch(p).value;
    HeadForth(p);
    assert WordBytes(r.inClusters) == p[5..mid] by { WrittenRead(p, 5, p[4]); }
    assert CountByte(|r.outClusters|) == p[mid..mid + 1];
    assert WordBytes(r.outClusters) == p[mid + 1..end] by { WrittenRead(p, mid + 1, p[mid]); }
    CutUp(p, mid, end);
  }

  /** The length checks pass, with this outcome, exactly if the payload starts with an encoding of it. */
  lemma ParseMatchIff(p: seq<byte>, r: MatchRequest)
    ensures ParseMatch(p) == Some(r) <==> |r.inClusters| <= 255 && |r.outClusters| <= 255 && EncodeMatch(r) <= p
  {
    hide ParseMatch, EncodeMatch;
    if ParseMatch(p) == Some(r) {
      EncodeParsedMatch(p);
    }
    if |r.inClusters| <= 255 && |r.outClusters| <= 255 && EncodeMatch(r) <= p {
      assert p == EncodeMatch(r) + p[|EncodeMatch(r)|..];
      ParseEncodedMatch(r, p[|EncodeMatch(r)|..]);
    }
  }

  /** The two lists have a cluster in common. */
  predicate Meet(a: seq<word>, b: seq<word>) { exists c :: c in a && c in b }

  /** The descriptor is of the profile asked for and meets each list that is not empty. */
  predicate Matches(desc: SimpleDescriptor, r: MatchRequest) {
    && desc.profileId == r.profile
    && (r.inClusters == [] || Meet(desc.inClusters, r.inClusters))
    && (r.outClusters == [] || Meet(desc.outClusters, r.outClusters))
  }

  function MatchResponse(own: word, matched: seq<byte>): seq<byte> {
    [0x00, Lo(own), Hi(own), Truncate(|matched|)] + matched
  }

  /** matched lists, once each, exactly the endpoints whose stored descriptor answers r. */
  ghost predicate Answers(matched: seq<byte>, table: map<byte, SimpleDescriptor>, r: MatchRequest) {
    Distinct(matched) && forall ep :: ep in matched <==> ep in table && Matches(table[ep], r)
  }

  datatype Response = Response(dst: word, cluster: word, payload: seq<byte>)

  // ---- the descriptor response ---------------------------------------------------------

  function ClusterBytes(cs: seq<word>): seq<byte> { [Truncate(|cs|)] + WordBytes(cs) }

  /** Success, this node's address, the length of the rest, endpoint and profile. */
  function SimpleHead(own: word, d: SimpleDescriptor): (bs: seq<byte>)
    ensures |bs| == 7
  {
    [0x00, Lo(own), Hi(own), Truncate(5 + 2 * Clusters(d)), d.endpoint, Lo(d.profileId), Hi(d.profileId)]
  }

  /** The head, and the clusters the descriptor takes and gives. */
  function SimpleResponse(own: word, d: SimpleDescriptor): seq<byte> {
    SimpleHead(own, d) + ClusterBytes(d.inClusters) + ClusterBytes(d.outClusters)
  }

  /** What becomes of a response: it goes out as an unsecured APS unicast between the endpoints zero. */
  function Respond(st: State, running: bool, r: Response): Effect {
    SendAps(st, running, false, r.dst, ApsFrame(r.cluster, r.payload, 0, 0, false), false)
  }

  lemma NoKeyNeeded(st: State, running: bool, linkKey: bool, dst: word, frame: seq<byte>)
    ensures SendAps(st, running, linkKey, dst, frame, false) == SendAps(st, running, false, dst, frame, false)
  {
  }

  function Clusters(d: SimpleDescriptor): nat { |d.inClusters| + |d.outClusters| }

  class ZigbeeZdo {
    const nwkAddr: word
    const endpoints: ZdoEndpointTable
    const aps: ZigbeeAps
    /** What was passed to the application support layer. */
    ghost var responses: seq<Response>

    constructor (aps: ZigbeeAps, nwkAddr: word, endpoints: ZdoEndpointTable)
      ensures this.aps == aps && this.nwkAddr == nwkAddr && this.endpoints == endpoints && responses == []
    {
      this.aps, this.nwkAddr, this.endpoints := aps, nwkAddr, endpoints;
      responses := [];
    }

    /** The response, if there is one, went through the layers below; otherwise nothing happened. */
    twostate predicate Answered(r: Option<Response>)
      reads this, aps, aps.nwk
    {
      var st := old(aps.nwk.Model());
      var e := match r case Some(x) => Respond(st, aps.running, x) case None => Unchanged(st);
      && responses == old(responses) + (match r case Some(x) => [x] case None => [])
      && aps.nwk.Model() == e.state
      && aps.nwk.emitted == old(aps.nwk.emitted) + e.frames
      && aps.nwk.requests == old(aps.nwk.requests) + e.requests
      && aps.nwk.delivered == old(aps.nwk.delivered) + e.ups
    }

    /** An unsecured APS unicast between the two endpoints zero. */
    method SendZdoResponse(dst: word, cluster: word, payload: seq<byte>) returns (ok: bool)
      modifies this`responses, aps.nwk
      ensures Answered(Some(Response(dst, cluster, payload)))
      ensures ok == Sent(old(aps.nwk.Model()), aps.running, false, dst, false, aps.nwk.macAccepts)
    {
      hide SendAps, ApsFrame;
      ok := aps.SendApsData(dst, cluster, payload, 0, 0, false);
      NoKeyNeeded(old(aps.nwk.Model()), aps.running, LINK_EXT in aps.linkKeys, dst,
                  ApsFrame(cluster, payload, 0, 0, false));
      responses := responses + [Response(dst, cluster, payload)];
    }

    method PushClusters(rsp: seq<byte>, cs: seq<word>) returns (out: seq<byte>)
      ensures out == rsp + ClusterBytes(cs)
    {
      out := rsp + [Truncate(|cs|)];
      for i := 0 to |cs|
        invariant out == rsp + ([Truncate(|cs|)] + WordBytes(cs[..i]))
      {
        WordBytesSnoc(cs[..i], cs[i]);
        assert cs[..i + 1] == cs[..i] + [cs[i]];
        out := out + [Lo(cs[i])] + [Hi(cs[i])];
      }
      assert cs[..|cs|] == cs;
    }

    /** The response is pushed with a zero length, which is patched once the rest is known. */
    method DescribeEndpoint(desc: SimpleDescriptor) returns (rsp: seq<byte>)
      ensures rsp == SimpleResponse(nwkAddr, desc)
    {
      hide ClusterBytes;
      rsp := [0x00];
      rsp := rsp + [Lo(nwkAddr)] + [Hi(nwkAddr)];
      var lenPos := |rsp|;
      rsp := rsp + [0];
      rsp := rsp + [desc.endpoint];
      rsp := rsp + [Lo(desc.profileId)] + [Hi(desc.profileId)];
      rsp := PushClusters(rsp, desc.inClusters);
      rsp := PushClusters(rsp, desc.outClusters);
      ClusterLength(desc.inClusters);
      ClusterLength(desc.outClusters);
      rsp := rsp[lenPos := Truncate(|rsp| - (lenPos + 1))];
    }

    method HandleSimpleDescReq(src: word, payload: seq<byte>)
      requires endpoints.Valid()
      modifies this`responses, aps.nwk
      ensures |payload| < 3 || Word(payload[0], payload[1]) != nwkAddr ==> Answered(None)
      ensures |payload| >= 3 && Word(payload[0], payload[1]) == nwkAddr && payload[2] !in endpoints.epMap ==>
                Answered(Some(Response(src, 0x8004, [0x82, Lo(nwkAddr), Hi(nwkAddr)])))
      ensures |payload| >= 3 && Word(payload[0], payload[1]) == nwkAddr && payload[2] in endpoints.epMap ==>
                var d := endpoints.epMap[payload[2]];
                && Answered(Some(Response(src, 0x8004, SimpleResponse(nwkAddr, d))))
                && d.endpoint == payload[2]
                && (DecodeSimple(SimpleResponse(nwkAddr, d)) == Some((nwkAddr, d)) <==> Clusters(d) <= 125)
    {
      if |payload| >= 3 && payload[2] in endpoints.epMap {
        SimpleResponseIff(nwkAddr, endpoints.epMap[payload[2]]);
      }
      hide SimpleResponse, DecodeSimple, Respond;
      if |payload| < 3 {
        return;
      }
      var target := Word(payload[0], payload[1]);
      var ep := payload[2];
      if target == nwkAddr {
        var found, desc := endpoints.GetSimpleDescriptor(ep);
        if !found {
          var _ := SendZdoResponse(src, 0x8004, [0x82, Lo(nwkAddr), Hi(nwkAddr)]);
          return;
        }
        var rsp := DescribeEndpoint(desc);
        var _ := SendZdoResponse(src, 0x8004, rsp);
      }
    }

    /** Whether the stored list has a cluster that was asked for. */
    method AnyCommon(stored: seq<word>, asked: seq<word>) returns (ok: bool)
      ensures ok == (asked == [] || Meet(stored, asked))
    {
      ok := false;
      if asked == [] {
        ok := true;
      } else {
        for i := 0 to |stored|
          invariant !ok && forall j :: 0 <= j < i ==> stored[j] !in asked
        {
          if stored[i] in asked {
            ok := true;
            break;
          }
        }
      }
    }

    method FindMatches(r: MatchRequest) returns (matched: seq<byte>)
      ensures Answers(matched, endpoints.epMap, r)
    {
      hide Matches;
      var eps := endpoints.GetActiveEndpoints();
      matched := [];
      for i := 0 to |eps|
        invariant Distinct(matched)
        invariant forall ep :: ep in matched <==>
                                 ep in eps[..i] && ep in endpoints.epMap && Matches(endpoints.epMap[ep], r)
      {
        var ep := eps[i];
        var found, desc := endpoints.GetSimpleDescriptor(ep);
        var hit := false;
        if found {
          if desc.profileId == r.profile {
            var inOk := AnyCommon(desc.inClusters, r.inClusters);
            var outOk := AnyCommon(desc.outClusters, r.outClusters);
            hit := inOk && outOk;
          }
          MatchesIs(desc, r, hit);
        }
        assert ep !in eps[..i];
        assert eps[..i + 1] == eps[..i] + [ep];
        if hit {
          matched := matched + [ep];
        }
      }
      assert eps[..|eps|] == eps;
    }

    method HandleMatchDescReq(src: word, payload: seq<byte>)
      modifies this`responses, aps.nwk
      ensures ParseMatch(payload).None? || ParseMatch(payload).value.target != nwkAddr ==> Answered(None)
      ensures ParseMatch(payload).Some? && ParseMatch(payload).value.target == nwkAddr ==>
                exists matched :: Answers(matched, endpoints.epMap, ParseMatch(payload).value) &&
                  Answered(Some(Response(src, 0x8006, MatchResponse(nwkAddr, matched))))
    {
      hide Answers, Respond;
      if |payload| < 5 {
        return;
      }
      var target := Word(payload[0], payload[1]);
      var profile := Word(payload[2], payload[3]);
      var inCount: nat := payload[4];
      var offset := 5;
      if |payload| < offset + inCount * 2 {
        return;
      }
      var inCl: seq<word> := [];
      for i := 0 to inCount
        invariant offset == 5 + 2 * i && inCl == ReadWords(payload, 5, i)
      {
        var cid := Word(payload[offset], payload[offset + 1]);
        offset := offset + 2;
        inCl := inCl + [cid];
      }
      if |payload| < offset + 1 {
        return;
      }
      var outCount: nat := payload[offset];
      offset := offset + 1;
      if |payload| < offset + outCount * 2 {
        return;
      }
      ghost var start := offset;
      var outCl: seq<word> := [];
      for i := 0 to outCount
        invariant offset == start + 2 * i && outCl == ReadWords(payload, start, i)
      {
        var cid := Word(payload[offset], payload[offset + 1]);
        offset := offset + 2;
        outCl := outCl + [cid];
      }
      assert ParseMatch(payload) == Some(MatchRequest(target, profile, inCl, outCl));
      if target == nwkAddr {
        var matched := FindMatches(MatchRequest(target, profile, inCl, outCl));
        var rsp := [0x00];
        rsp := rsp + [Lo(nwkAddr)];
        rsp := rsp + [Hi(nwkAddr)];
        rsp := rsp + [Truncate(|matched|)];
        rsp := rsp + matched;
        assert rsp == MatchResponse(nwkAddr, matched);
        var _ := SendZdoResponse(src, 0x8006, rsp);
      }
    }
  }

  lemma ClusterLength(cs: seq<word>) ensures |ClusterBytes(cs)| == 1 + 2 * |cs| {}

  lemma MatchesIs(desc: SimpleDescriptor, r: MatchRequest, hit: bool)
    requires hit == (desc.profileId == r.profile && (r.inClusters == [] || Meet(desc.inClusters, r.inClusters)) &&
                     (r.outClusters == [] || Meet(desc.outClusters, r.outClusters)))
    ensures Matches(desc, r) == hit
  {
  }

  // ---- what the responses say ----------------------------------------------------------

  function Octets(n: nat): (s: set<int>)
    ensures |s| == n
    ensures forall x :: x in s <==> 0 <= x < n
  {
    if n == 0 then {} else Octets(n - 1) + {n - 1}
  }

  ghost function Elements(eps: seq<byte>): set<int> { set i | 0 <= i < |eps| :: eps[i] as int }

  lemma {:induction false} DistinctSize(eps: seq<byte>)
    requires Distinct(eps)
    ensures |Elements(eps)| == |eps|
  {
    if eps == [] {
      assert Elements(eps) == {};
    } else {
      var k := |eps| - 1;
      DistinctSize(eps[..k]);
      assert Elements(eps) == Elements(eps[..k]) + {eps[k] as int};
      assert eps[k] as int !in Elements(eps[..k]);
    }
  }

  lemma Subset(a: set<int>, b: set<int>)
    requires a <= b
    ensures |a| <= |b| && (|a| == |b| ==> a == b)
  {
    assert b == a + (b - a);
    assert |b| == |a| + |b - a|;
  }

  /** n distinct octets out of n possible ones are all of them. */
  lemma DistinctOctets(eps: seq<byte>, n: nat)
    requires Distinct(eps) && n == 0x100
    ensures |eps| <= n
    ensures |eps| == n <==> forall ep: byte :: ep in eps
  {
    hide Octets;
    var all, every := Elements(eps), Octets(n);
    DistinctSize(eps);
    Subset(all, every);
    if |eps| == n {
      forall ep: byte ensures ep in eps {
        assert ep as int in every;
      }
    }
    if forall ep: byte :: ep in eps {
      forall x | x in every ensures x in all {
        var ep: byte := x;
        assert ep in eps;
      }
      assert all == every;
    }
  }

  /**
   The count octet is the number of endpoints listed, unless every one of the 256 endpoint
   numbers is in the table and matches; then it reads zero.
   */
  lemma CountOctetIff(own: word, matched: seq<byte>, table: map<byte, SimpleDescriptor>, r: MatchRequest)
    requires Answers(matched, table, r)
    ensures |matched| <= 256
    ensures MatchResponse(own, matched)[3] == |matched| <==>
            exists ep: byte :: !(ep in table && Matches(table[ep], r))
  {
    hide Matches;
    DistinctOctets(matched, 0x100);
    if forall ep: byte :: ep in table && Matches(table[ep], r) {
      assert forall ep: byte :: ep in matched;
    } else {
      var ep: byte :| !(ep in table && Matches(table[ep], r));
      assert ep !in matched;
    }
  }

  /** A cluster list at `at`: its members and the offset after it. */
  function ClustersAt(p: seq<byte>, at: nat): Option<(seq<word>, nat)> {
    if |p| < at + 1 || |p| < at + 1 + 2 * (p[at] as int) then None
    else Some((ReadWords(p, at + 1, p[at]), at + 1 + 2 * (p[at] as int)))
  }

  /** A reader of descriptor responses that trusts the length octet and wants nothing left over. */
  function DecodeSimple(p: seq<byte>): Option<(word, SimpleDescriptor)> {
    if |p| < 7 || p[0] != 0 || p[3] as int != |p| - 4 then None
    else
      match ClustersAt(p, 7)
      case None => None
      case Some((ins, mid)) =>
        match ClustersAt(p, mid)
        case None => None
        case Some((outs, end)) =>
          if end != |p| then None
          else Some((Word(p[1], p[2]), SimpleDescriptor(p[4], Word(p[5], p[6]), ins, outs)))
  }

  lemma ClustersBack(pre: seq<byte>, cs: seq<word>, rest: seq<byte>)
    requires |cs| <= 255
    ensures ClustersAt(pre + ClusterBytes(cs) + rest, |pre|) == Some((cs, |pre| + 1 + 2 * |cs|))
  {
    hide WordBytes, ReadWords;
    var p := pre + ClusterBytes(cs) + rest;
    assert p == (pre + [Truncate(|cs|)]) + WordBytes(cs) + rest;
    ReadWritten(pre + [Truncate(|cs|)], cs, rest);
    assert p[|pre|] == ClusterBytes(cs)[0];
  }

  lemma SimpleLength(own: word, d: SimpleDescriptor)
    ensures |SimpleResponse(own, d)| == 9 + 2 * Clusters(d)
  {
    hide ClusterBytes;
    ClusterLength(d.inClusters);
    ClusterLength(d.outClusters);
  }

  /** The stored descriptor is read back from the response exactly while its clusters fit the length octet. */
  lemma SimpleResponseIff(own: word, d: SimpleDescriptor)
    ensures DecodeSimple(SimpleResponse(own, d)) == Some((own, d)) <==> Clusters(d) <= 125
    ensures SimpleResponse(own, d)[3] as int == |SimpleResponse(own, d)| - 4 <==> Clusters(d) <= 125
  {
    hide ClusterBytes, ClustersAt;
    var p := SimpleResponse(own, d);
    SimpleLength(own, d);
    var head := p[..7];
    assert head == [0x00, Lo(own), Hi(own), Truncate(5 + 2 * Clusters(d)),
                    d.endpoint, Lo(d.profileId), Hi(d.profileId)];
    if Clusters(d) <= 125 {
      ClusterLength(d.inClusters);
      ClustersBack(head, d.inClusters, ClusterBytes(d.outClusters));
      ClustersBack(head + ClusterBytes(d.inClusters), d.outClusters, []);
      assert p == head + ClusterBytes(d.inClusters) + ClusterBytes(d.outClusters);
      assert p == (head + ClusterBytes(d.inClusters)) + ClusterBytes(d.outClusters) + [];
    }
  }

  lemma ClusterParts(cs: seq<word>)
    ensures var bs := ClusterBytes(cs); |bs| == 1 + 2 * |cs| && bs[0] == |cs| % 0x100 && bs[1..] == WordBytes(cs)
  {
    hide WordBytes;
  }

  lemma ThreeParts(head: seq<byte>, a: seq<byte>, b: seq<byte>)
    requires a != [] && b != []
    ensures var p := head + a + b;
            var n, mid := |head|, |head| + |a|;
            && p[..n] == head && (forall i :: 0 <= i < n ==> p[i] == head[i])
            && p[n] == a[0] && p[n + 1..mid] == a[1..] && p[mid] == b[0] && p[mid + 1..] == b[1..]
  {
  }

  /** The octets of a descriptor response in their order, the two cluster lists after the first seven. */
  lemma SimpleResponseByOctets(own: word, d: SimpleDescriptor)
    ensures var p := SimpleResponse(own, d);
            var mid := 8 + 2 * |d.inClusters|;
            && |p| == mid + 1 + 2 * |d.outClusters|
            && p[0] == 0x00 && Word(p[1], p[2]) == own && (p[3] - (|p| - 4)) % 0x100 == 0
            && p[4] == d.endpoint && Word(p[5], p[6]) == d.profileId
            && p[7] == |d.inClusters| % 0x100 && p[8..mid] == WordBytes(d.inClusters)
            && p[mid] == |d.outClusters| % 0x100 && p[mid + 1..] == WordBytes(d.outClusters)
  {
    hide WordBytes, ClusterBytes, Word;
    var head := SimpleHead(own, d);
    Digits(own, 0, 0, 5 + 2 * Clusters(d));
    Digits(d.profileId, 0, 0, 0);
    SimpleLength(own, d);
    assert SimpleResponse(own, d) == head + ClusterBytes(d.inClusters) + ClusterBytes(d.outClusters);
    ClusterParts(d.inClusters);
    ClusterParts(d.outClusters);
    ThreeParts(head, ClusterBytes(d.inClusters), ClusterBytes(d.outClusters));
  }

  lemma MatchResponseByOctets(own: word, matched: seq<byte>)
    ensures var p := MatchResponse(own, matched);
            && p[0] == 0x00 && Word(p[1], p[2]) == own && p[3] == |matched| % 0x100 && p[4..] == matched
  {
  }

  /** A response to a node there is a route to is indicated there, at endpoint zero, as it was made. */
  lemma ResponseArrives(a: State, b: State, r: Response, rssi: int, lqi: byte, now: int)
    requires Inv(a) && Joined(a) && HasRoute(a, r.dst) && r.dst == b.own && b.callback
    ensures var sent := Respond(a, true, r);
            && |sent.frames| == 1
            && (var ups := Inbound(b, sent.frames[0], rssi, lqi, now).ups;
                |ups| == 1 && Indicate(ups[0].payload, ups[0].src) == [Indication(0, r.cluster, r.payload, a.own, 0)])
  {
    hide SendAps, ApsFrame, Indicate, Inbound, Inv, Joined, HasRoute;
    SingleHopDelivery(a, b, r.dst, r.cluster, r.payload, 0, 0, false, rssi, lqi, now);
    NoKeyNeeded(a, true, true, r.dst, ApsFrame(r.cluster, r.payload, 0, 0, false));
  }

  /**
   A requester there is a route to hears the answer about a stored endpoint and reads from it this
   node's address and the descriptor of just that endpoint, up to 125 clusters.
   */
  lemma DescriptorArrives(a: State, b: State, own: word, table: map<byte, SimpleDescriptor>, ep: byte,
                          rssi: int, lqi: byte, now: int)
    requires Keyed(table) && ep in table && Clusters(table[ep]) <= 125
    requires Inv(a) && Joined(a) && HasRoute(a, b.own) && b.callback
    ensures var sent := Respond(a, true, Response(b.own, 0x8004, SimpleResponse(own, table[ep])));
            && |sent.frames| == 1
            && (var ups := Inbound(b, sent.frames[0], rssi, lqi, now).ups;
                && |ups| == 1
                && (var heard := Indicate(ups[0].payload, ups[0].src);
                    && |heard| == 1 && heard[0].cluster == 0x8004 && heard[0].src == a.own
                    && DecodeSimple(heard[0].payload) == Some((own, table[ep])) && table[ep].endpoint == ep))
  {
    hide Respond, Indicate, Inbound, Inv, Joined, HasRoute, SimpleResponse, DecodeSimple;
    ResponseArrives(a, b, Response(b.own, 0x8004, SimpleResponse(own, table[ep])), rssi, lqi, now);
    SimpleResponseIff(own, table[ep]);
  }

  /** A reader of match responses that trusts the count octet and wants nothing left over. */
  function DecodeMatch(p: seq<byte>): Option<(word, seq<byte>)> {
    if |p| < 4 || p[0] != 0 || p[3] as int != |p| - 4 then None else Some((Word(p[1], p[2]), p[4..]))
  }

  lemma MatchResponseRead(own: word, matched: seq<byte>)
    ensures DecodeMatch(MatchResponse(own, matched)) ==
            if |matched| <= 255 then Some((own, matched)) else None
  {
    assert MatchResponse(own, matched)[4..] == matched;
  }

  /**
   A requester there is a route to hears the answer to its match request as it was made, and reads
   from it this node's address and exactly the endpoints that match, unless all 256 do: then it
   reads nothing.
   */
  lemma MatchAnswerArrives(a: State, b: State, own: word, table: map<byte, SimpleDescriptor>, r: MatchRequest,
                           matched: seq<byte>, rssi: int, lqi: byte, now: int)
    requires Answers(matched, table, r)
    requires Inv(a) && Joined(a) && HasRoute(a, b.own) && b.callback
    ensures var sent := Respond(a, true, Response(b.own, 0x8006, MatchResponse(own, matched)));
            && |sent.frames| == 1
            && (var ups := Inbound(b, sent.frames[0], rssi, lqi, now).ups;
                && |ups| == 1
                && (var heard := Indicate(ups[0].payload, ups[0].src);
                    && |heard| == 1 && heard[0].cluster == 0x8006 && heard[0].src == a.own
                    && (var read := DecodeMatch(heard[0].payload);
                        if forall ep: byte :: ep in table && Matches(table[ep], r) then read == None
                        else
                          && read.Some? && read.value.0 == own
                          && forall ep :: ep in read.value.1 <==> ep in table && Matches(table[ep], r))))
  {
    hide Respond, Indicate, Inbound, Inv, Joined, HasRoute, MatchResponse, DecodeMatch, Matches;
    ResponseArrives(a, b, Response(b.own, 0x8006, MatchResponse(own, matched)), rssi, lqi, now);
    MatchResponseRead(own, matched);
    DistinctOctets(matched, 0x100);
    if forall ep: byte :: ep in table && Matches(table[ep], r) {
      assert forall ep: byte :: ep in matched;
    } else {
      var ep: byte :| !(ep in table && Matches(table[ep], r));
      assert ep !in matched;
    }
  }
}
