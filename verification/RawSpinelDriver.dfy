/**
 The host end of the serial link: the receive loop over its growing buffer, the dispatch of
 decoded Spinel frames to the registered handlers, and the sending side.
 */
module RawSpinel {
  import opened Bytes
  import opened Hdlc
  import opened Deframer

  const SPINEL_HEADER_FLAG: byte := 0x80
  const CMD_PROP_VALUE_SET: word := 3
  const CMD_PROP_VALUE_IS: word := 4
  const PROP_STREAM_RAW: word := 0x61

  /** One invocation of a registered callback. */
  datatype HandlerCall =
    | RawFrame(frame: seq<byte>, rssi: int, lqi: byte)
    | PropertyEvent(prop: word, data: seq<byte>)

  /** The callback a decoded Spinel frame leads to, if any. */
  function Dispatch(f: seq<byte>, raw: bool, event: bool): seq<HandlerCall> {
    if |f| < 5 || Word(f[1], f[2]) != CMD_PROP_VALUE_IS then []
    else if Word(f[3], f[4]) != PROP_STREAM_RAW then
      if event then [PropertyEvent(Word(f[3], f[4]), f[5..])] else []
    else if !raw then []
    else if |f| < 7 then [RawFrame(f[5..], 0, 0)]
    else [RawFrame(f[5..|f| - 2], Signed(f[|f| - 2]), f[|f| - 1])]
  }

  function DispatchAll(frames: seq<seq<byte>>, raw: bool, event: bool): seq<HandlerCall> {
    if frames == [] then []
    else DispatchAll(frames[..|frames| - 1], raw, event) + Dispatch(frames[|frames| - 1], raw, event)
  }

  lemma {:induction false} DispatchAllConcat(a: seq<seq<byte>>, b: seq<seq<byte>>, raw: bool, event: bool)
    ensures DispatchAll(a + b, raw, event) == DispatchAll(a, raw, event) + DispatchAll(b, raw, event)
  {
    hide Dispatch;
    if b == [] {
      assert a + b == a;
    } else {
      var k := |b| - 1;
      DispatchAllConcat(a, b[..k], raw, event);
      assert (a + b)[..|a| + k] == a + b[..k];
    }
  }

  /** The first position from `from` on that holds b, or the length. */
  function Find(s: seq<byte>, from: nat, b: byte): (i: nat)
    requires from <= |s|
    ensures from <= i <= |s|
    ensures b !in s[from..i]
    ensures i < |s| ==> s[i] == b
    decreases |s| - from
  {
    if from == |s| || s[from] == b then from
    else
      assert s[from..Find(s, from + 1, b)] == [s[from]] + s[from + 1..Find(s, from + 1, b)];
      Find(s, from + 1, b)
  }

  /** A buffer between two reads: no flag at all, or a single one in front. */
  predicate Settled(buffer: seq<byte>) {
    FLAG !in buffer || (buffer[0] == FLAG && FLAG !in buffer[1..])
  }

  /** The automaton state a settled buffer stands for, and back. */
  function LinkOf(buffer: seq<byte>): Link {
    if buffer != [] && buffer[0] == FLAG then Inside(buffer[1..]) else Outside(buffer)
  }

  function Pending(link: Link): seq<byte> {
    match link
    case Outside(noise) => noise
    case Inside(body) => [FLAG] + body
  }

  /** Reading a settled buffer from scratch reaches the state it stands for. */
  lemma Replay(buffer: seq<byte>)
    requires Settled(buffer)
    ensures Run(START, buffer) == Progress(LinkOf(buffer), [])
    ensures Pending(LinkOf(buffer)) == buffer
  {
    if FLAG !in buffer {
      RunNoFlag(START, buffer);
      assert [] + buffer == buffer;
    } else {
      var body := buffer[1..];
      RunSnoc(START, [], FLAG);
      assert [] + [FLAG] == [FLAG];
      RunNoFlag(Inside([]), body);
      RunConcat(START, [FLAG], body);
      assert buffer == [FLAG] + body && [] + body == body;
    }
  }

  lemma SkipNoise(buffer: seq<byte>, pos: nat, flag: nat)
    requires pos <= flag <= |buffer| && FLAG !in buffer[pos..flag]
    requires Run(START, buffer[..pos]).link == START
    ensures Run(START, buffer[..flag]) == Progress(Outside(buffer[pos..flag]), Run(START, buffer[..pos]).bodies)
  {
    hide Run;
    var noise := buffer[pos..flag];
    RunNoFlag(START, noise);
    RunConcat(START, buffer[..pos], noise);
    assert [] + noise == noise;
    assert buffer[..pos] + noise == buffer[..flag];
  }

  lemma FoundPair(buffer: seq<byte>, pos: nat, flag: nat, next: nat)
    requires pos <= flag < next < |buffer| && buffer[flag] == FLAG == buffer[next]
    requires FLAG !in buffer[pos..flag] && FLAG !in buffer[flag + 1..next]
    requires Run(START, buffer[..pos]).link == START
    ensures Run(START, buffer[..next + 1]) ==
            Progress(START, Run(START, buffer[..pos]).bodies + [buffer[flag + 1..next]])
  {
    hide Run;
    SkipNoise(buffer, pos, flag);
    var body := buffer[flag + 1..next];
    RunPair(buffer[pos..flag], body);
    RunConcat(START, buffer[..flag], [FLAG] + body + [FLAG]);
    assert buffer[..next + 1] == buffer[..flag] + ([FLAG] + body + [FLAG]);
  }

  lemma NoFlagLeft(buffer: seq<byte>, pos: nat)
    requires pos <= |buffer| && FLAG !in buffer[pos..]
    requires Run(START, buffer[..pos]).link == START
    ensures Run(START, buffer) == Progress(LinkOf(buffer[pos..]), Run(START, buffer[..pos]).bodies)
    ensures Settled(buffer[pos..])
  {
    hide Run;
    Replay(buffer[pos..]);
    RunConcat(START, buffer[..pos], buffer[pos..]);
    assert buffer == buffer[..pos] + buffer[pos..];
  }

  lemma FlagThenBody(body: seq<byte>, link: Link)
    requires FLAG !in body && link.Outside?
    ensures Run(link, Pending(Inside(body))) == Progress(Inside(body), [])
    ensures LinkOf(Pending(Inside(body))) == Inside(body) && Settled(Pending(Inside(body)))
  {
    hide Run;
    NoiseForgotten(link.noise, body);
    assert ([FLAG] + body)[1..] == body;
  }

  lemma SplitAtFlag(buffer: seq<byte>, flag: nat)
    requires flag < |buffer| && buffer[flag] == FLAG
    ensures buffer[flag..] == Pending(Inside(buffer[flag + 1..]))
  {
  }

  lemma OneFlagLeft(buffer: seq<byte>, pos: nat, flag: nat)
    requires pos <= flag < |buffer| && buffer[flag] == FLAG
    requires FLAG !in buffer[pos..flag] && FLAG !in buffer[flag + 1..]
    requires Run(START, buffer[..pos]).link == START
    ensures Run(START, buffer) == Progress(LinkOf(buffer[flag..]), Run(START, buffer[..pos]).bodies)
    ensures Settled(buffer[flag..])
  {
    hide Run, LinkOf, Settled, Pending;
    SplitAtFlag(buffer, flag);
    FlagThenBody(buffer[flag + 1..], Outside(buffer[pos..flag]));
    RunFromNoise(buffer, pos, flag, buffer[flag..]);
  }

  lemma RunFromNoise(buffer: seq<byte>, pos: nat, flag: nat, rest: seq<byte>)
    requires pos <= flag <= |buffer| && FLAG !in buffer[pos..flag] && rest == buffer[flag..]
    requires Run(START, buffer[..pos]).link == START
    requires Run(Outside(buffer[pos..flag]), rest).bodies == []
    ensures Run(START, buffer) ==
            Progress(Run(Outside(buffer[pos..flag]), rest).link, Run(START, buffer[..pos]).bodies)
  {
    hide Run;
    SkipNoise(buffer, pos, flag);
    RunConcat(START, buffer[..flag], rest);
    assert buffer == buffer[..flag] + rest;
  }

  lemma NoiseForgotten(noise: seq<byte>, body: seq<byte>)
    requires FLAG !in body
    ensures Run(Outside(noise), [FLAG] + body) == Progress(Inside(body), [])
  {
    RunSnoc(Outside(noise), [], FLAG);
    assert [] + [FLAG] == [FLAG];
    RunNoFlag(Inside([]), body);
    RunConcat(Outside(noise), [FLAG], body);
    assert [] + body == body;
  }

  class RawSpinelDriver {
    var buffer: seq<byte>
    var rawHandlerSet: bool
    var eventHandlerSet: bool
    /** What the port answers to a write; it may change between calls. */
    var portAccepts: bool
    /** Every frame that passed the check, every callback made, every octet handed to the port. */
    ghost var spinelFrames: seq<seq<byte>>
    ghost var calls: seq<HandlerCall>
    ghost var written: seq<byte>

    ghost predicate Valid()
      reads this
    {
      Settled(buffer)
    }

    constructor ()
      ensures Valid() && LinkOf(buffer) == START
      ensures !rawHandlerSet && !eventHandlerSet && spinelFrames == [] && calls == [] && written == []
    {
      buffer := [];
      rawHandlerSet, eventHandlerSet, portAccepts := false, false, true;
      spinelFrames, calls, written := [], [], [];
    }

    method SetRawFrameHandler(present: bool)
      modifies this`rawHandlerSet
      ensures rawHandlerSet == present
    {
      rawHandlerSet := present;
    }

    method SetSpinelEventHandler(present: bool)
      modifies this`eventHandlerSet
      ensures eventHandlerSet == present
    {
      eventHandlerSet := present;
    }

    method HandleSpinelFrame(f: seq<byte>)
      modifies this`calls
      ensures calls == old(calls) + Dispatch(f, rawHandlerSet, eventHandlerSet)
    {
      if |f| < 5 {
        return;
      }
      var cmd := Word(f[1], f[2]);
      var prop := Word(f[3], f[4]);
      var payload := f[5..];
      if cmd == CMD_PROP_VALUE_IS {
        if prop == PROP_STREAM_RAW {
          if |payload| >= 2 {
            var rssi := Signed(payload[|payload| - 2]);
            var lqi := payload[|payload| - 1];
            var rawFrame := payload[..|payload| - 2];
            assert rawFrame == f[5..|f| - 2];
            if rawHandlerSet {
              calls := calls + [RawFrame(rawFrame, rssi, lqi)];
            }
          } else {
            if rawHandlerSet {
              calls := calls + [RawFrame(payload, 0, 0)];
            }
          }
        } else {
          if eventHandlerSet {
            calls := calls + [PropertyEvent(prop, payload)];
          }
        }
      }
    }

    /** Decodes one body and hands what it carries to the dispatcher. */
    method HandleHdlcFrame(hdlcFrame: seq<byte>)
      modifies this`spinelFrames, this`calls
      ensures spinelFrames == old(spinelFrames) + Payloads([hdlcFrame])
      ensures calls == old(calls) + DispatchAll(Payloads([hdlcFrame]), rawHandlerSet, eventHandlerSet)
    {
      hide Decode, Dispatch;
      PayloadsOne(hdlcFrame);
      var ok, spinelFrame := HdlcDecode(hdlcFrame);
      if ok {
        HandleSpinelFrame(spinelFrame);
        spinelFrames := spinelFrames + [spinelFrame];
        DispatchAllSnoc([], spinelFrame, rawHandlerSet, eventHandlerSet);
        assert [] + [spinelFrame] == [spinelFrame];
      }
    }

    /** One turn of the receive loop on what the port returned. */
    method Feed(chunk: seq<byte>)
      requires Valid()
      modifies this`buffer, this`spinelFrames, this`calls
      ensures Valid()
      ensures buffer == Pending(Run(LinkOf(old(buffer)), chunk).link)
      ensures LinkOf(buffer) == Run(LinkOf(old(buffer)), chunk).link
      ensures spinelFrames == old(spinelFrames) + Payloads(Run(LinkOf(old(buffer)), chunk).bodies)
      ensures calls == old(calls) +
                       DispatchAll(Payloads(Run(LinkOf(old(buffer)), chunk).bodies), rawHandlerSet, eventHandlerSet)
    {
      hide Run, Decode, Dispatch, DispatchAll, Payloads, LinkOf, Settled, Pending, Find;
      Replay(buffer);
      RunConcat(START, buffer, chunk);
      if chunk == [] {
        RunNothing(LinkOf(buffer));
        PayloadsNil();
        return;
      }
      ghost var all := Run(LinkOf(buffer), chunk);
      buffer := buffer + chunk;
      var bytes := buffer;
      assert Run(START, bytes) == all;
      var pos := 0;
      ghost var bodies: seq<seq<byte>> := [];
      RunNothing(START);
      PayloadsNil();
      assert bytes[..0] == [];
      while pos < |bytes|
        invariant 0 <= pos <= |bytes| && buffer == bytes
        invariant Run(START, bytes[..pos]) == Progress(START, bodies)
        invariant spinelFrames == old(spinelFrames) + Payloads(bodies)
        invariant calls == old(calls) + DispatchAll(Payloads(bodies), rawHandlerSet, eventHandlerSet)
        decreases |bytes| - pos
      {
        var flagPos := Find(bytes, pos, FLAG);
        if flagPos == |bytes| {
          assert bytes[pos..] == bytes[pos..|bytes|];
          NoFlagLeft(bytes, pos);
          break;
        }
        var nextFlag := Find(bytes, flagPos + 1, FLAG);
        if nextFlag == |bytes| {
          assert bytes[flagPos + 1..] == bytes[flagPos + 1..|bytes|];
          OneFlagLeft(bytes, pos, flagPos);
          pos := flagPos;
          break;
        }
        var hdlcFrame := bytes[flagPos + 1..nextFlag];
        HandleHdlcFrame(hdlcFrame);
        PairDone(bytes, pos, flagPos, nextFlag, bodies, rawHandlerSet, eventHandlerSet);
        bodies := bodies + [hdlcFrame];
        pos := nextFlag + 1;
      }
      if pos == |bytes| {
        NoFlagLeft(bytes, pos);
      }
      assert all == Progress(LinkOf(bytes[pos..]), bodies);
      assert Settled(bytes[pos..]);
      ghost var rest := bytes[pos..];
      assert bytes[0..] == bytes;
      if pos > 0 {
        buffer := bytes[pos..];
      }
      assert buffer == rest;
      Replay(buffer);
    }

    /** The receive loop over what successive reads return. */
    method RxLoop(chunks: seq<seq<byte>>)
      requires Valid()
      modifies this`buffer, this`spinelFrames, this`calls
      ensures Valid()
      ensures buffer == Pending(Run(LinkOf(old(buffer)), Flatten(chunks)).link)
      ensures LinkOf(buffer) == Run(LinkOf(old(buffer)), Flatten(chunks)).link
      ensures spinelFrames == old(spinelFrames) + Payloads(Run(LinkOf(old(buffer)), Flatten(chunks)).bodies)
      ensures calls == old(calls) +
                       DispatchAll(Payloads(Run(LinkOf(old(buffer)), Flatten(chunks)).bodies),
                                   rawHandlerSet, eventHandlerSet)
    {
      hide Run, Dispatch, DispatchAll, Payloads, LinkOf, Settled, Pending, Flatten;
      ghost var link := LinkOf(buffer);
      FlattenNothing();
      RunNothing(link);
      PayloadsNil();
      Replay(buffer);
      for i := 0 to |chunks|
        invariant Valid()
        invariant LinkOf(buffer) == Run(link, Flatten(chunks[..i])).link && buffer == Pending(LinkOf(buffer))
        invariant spinelFrames == old(spinelFrames) + Payloads(Run(link, Flatten(chunks[..i])).bodies)
        invariant calls == old(calls) +
                           DispatchAll(Payloads(Run(link, Flatten(chunks[..i])).bodies), rawHandlerSet, eventHandlerSet)
      {
        ChunkGrows(link, chunks, i, rawHandlerSet, eventHandlerSet);
        Feed(chunks[i]);
      }
      assert chunks[..|chunks|] == chunks;
    }

    method SendSpinelFrame(payload: seq<byte>) returns (ok: bool)
      modifies this`written
      ensures written == old(written) + Encode(payload)
      ensures ok == portAccepts
    {
      var hdlcFrame := HdlcEncode(payload);
      written := written + hdlcFrame;
      ok := portAccepts;
    }

    method SendRawFrame(frame: seq<byte>) returns (ok: bool)
      modifies this`written
      ensures written == old(written) + Encode(SetRequest(1, 0x61, frame))
      ensures ok == portAccepts
    {
      var spinel: seq<byte> := [SPINEL_HEADER_FLAG + 1];
      spinel := spinel + [Lo(CMD_PROP_VALUE_SET)] + [Hi(CMD_PROP_VALUE_SET)];
      spinel := spinel + [Lo(PROP_STREAM_RAW)] + [Hi(PROP_STREAM_RAW)];
      spinel := spinel + frame;
      assert spinel == SetRequest(1, PROP_STREAM_RAW, frame);
      ok := SendSpinelFrame(spinel);
    }

    method SendSpinelSetProp(prop: word, data: seq<byte>) returns (ok: bool)
      modifies this`written
      ensures written == old(written) + Encode(SetRequest(2, prop, data))
      ensures ok == portAccepts
    {
      var spinel: seq<byte> := [SPINEL_HEADER_FLAG + 2];
      spinel := spinel + [Lo(CMD_PROP_VALUE_SET)] + [Hi(CMD_PROP_VALUE_SET)];
      spinel := spinel + [Lo(prop)] + [Hi(prop)];
      spinel := spinel + data;
      assert spinel == SetRequest(2, prop, data);
      ok := SendSpinelFrame(spinel);
    }
  }

  /** header, command PROP_VALUE_SET, property, payload */
  function SetRequest(tid: byte, prop: word, payload: seq<byte>): seq<byte>
    requires tid < 0x10
  {
    [SPINEL_HEADER_FLAG + tid, 3, 0, Lo(prop), Hi(prop)] + payload
  }

  /**
   A reader of the serial line gets back one frame from a request, and finds in it the transaction,
   command 3, the property and the payload.
   */
  lemma SetRequestRead(tid: byte, prop: word, payload: seq<byte>, noise: seq<byte>)
    requires tid < 0x10
    ensures var fs := Payloads(Run(Outside(noise), Encode(SetRequest(tid, prop, payload))).bodies);
            && |fs| == 1 && |fs[0]| == 5 + |payload|
            && fs[0][0] == 0x80 + tid
            && Word(fs[0][1], fs[0][2]) == 3
            && Word(fs[0][3], fs[0][4]) == prop
            && fs[0][5..] == payload
  {
    hide Run, Encode, Payloads;
    var f := SetRequest(tid, prop, payload);
    RunEncoded(noise, f);
    assert f[5..] == payload;
  }

  /** Which callback the octets of a decoded frame lead to, and with what. */
  lemma DispatchedByOctets(f: seq<byte>, raw: bool, event: bool)
    ensures var calls := Dispatch(f, raw, event);
            if |f| < 5 || Word(f[1], f[2]) != 4 then calls == []
            else if Word(f[3], f[4]) != 0x61 then
              if event then calls == [PropertyEvent(Word(f[3], f[4]), f[5..])] else calls == []
            else if !raw then calls == []
            else
              && |calls| == 1 && calls[0].RawFrame?
              && (if |f| < 7 then calls[0].frame == f[5..] && calls[0].rssi == 0 && calls[0].lqi == 0
                  else
                    && calls[0].frame == f[5..|f| - 2]
                    && -0x80 <= calls[0].rssi < 0x80 && (calls[0].rssi - f[|f| - 2]) % 0x100 == 0
                    && calls[0].lqi == f[|f| - 1])
  {
  }

  // ---- what the radio reports --------------------------------------------------------

  /** A reception as the radio co-processor reports it. */
  datatype Reception = Reception(header: byte, frame: seq<byte>, rssi: int8, lqi: byte)

  /** header, PROP_VALUE_IS, STREAM_RAW, frame, signal strength as a two's complement octet, link quality */
  function Report(r: Reception): seq<byte> { [r.header, 4, 0, 0x61, 0] + r.frame + [r.rssi % 0x100, r.lqi] }

  function Reports(rs: seq<Reception>): (fs: seq<seq<byte>>)
    ensures |fs| == |rs|
  {
    if rs == [] then [] else Reports(rs[..|rs| - 1]) + [Report(rs[|rs| - 1])]
  }

  function Received(rs: seq<Reception>): (cs: seq<HandlerCall>)
    ensures |cs| == |rs|
    ensures forall i :: 0 <= i < |rs| ==> cs[i] == RawFrame(rs[i].frame, rs[i].rssi, rs[i].lqi)
  {
    seq(|rs|, i requires 0 <= i < |rs| => RawFrame(rs[i].frame, rs[i].rssi, rs[i].lqi))
  }

  lemma ReportDispatched(r: Reception, event: bool)
    ensures Dispatch(Report(r), true, event) == [RawFrame(r.frame, r.rssi, r.lqi)]
  {
    assert Report(r)[5..|Report(r)| - 2] == r.frame;
  }

  lemma {:induction false} ReportsDispatched(rs: seq<Reception>, event: bool)
    ensures DispatchAll(Reports(rs), true, event) == Received(rs)
  {
    hide Dispatch, Report;
    if rs != [] {
      var k := |rs| - 1;
      ReportsDispatched(rs[..k], event);
      ReportDispatched(rs[k], event);
      DispatchAllSnoc(Reports(rs[..k]), Report(rs[k]), true, event);
      assert Received(rs) == Received(rs[..k]) + [RawFrame(rs[k].frame, rs[k].rssi, rs[k].lqi)];
    }
  }

  /** The report of any other property becomes one event, or nothing without an event handler. */
  lemma PropertyReported(header: byte, prop: word, data: seq<byte>, raw: bool, event: bool)
    requires prop != PROP_STREAM_RAW
    ensures Dispatch([header, 4, 0, Lo(prop), Hi(prop)] + data, raw, event) ==
            if event then [PropertyEvent(prop, data)] else []
  {
    var f := [header, 4, 0, Lo(prop), Hi(prop)] + data;
    assert f[5..] == data;
  }

  /** However the serial stream of any frames is cut into reads, each of them is dispatched, in order. */
  lemma FramesDispatched(frames: seq<seq<byte>>, chunks: seq<seq<byte>>, raw: bool, event: bool)
    requires Flatten(chunks) == EncodeAll(frames)
    ensures DispatchAll(Payloads(RunChunks(START, chunks).bodies), raw, event) == DispatchAll(frames, raw, event)
    ensures Pending(RunChunks(START, chunks).link) == []
  {
    hide Run, DispatchAll, Payloads, EncodeAll, RunChunks;
    ChunksDoNotMatter(START, chunks);
    StreamRoundTrip([], frames);
    if frames == [] {
      EncodeNothing();
      RunNothing(START);
    }
  }

  /**
   However the serial stream of a run of reports is cut into reads, the raw frame handler is
   called with exactly those frames, strengths and qualities, in order, and nothing else is called.
   */
  lemma ReceptionsArrive(rs: seq<Reception>, chunks: seq<seq<byte>>, event: bool)
    requires Flatten(chunks) == EncodeAll(Reports(rs))
    ensures DispatchAll(Payloads(RunChunks(START, chunks).bodies), true, event) == Received(rs)
    ensures Pending(RunChunks(START, chunks).link) == []
  {
    hide DispatchAll, Payloads, EncodeAll, Reports, Received, RunChunks, Pending;
    FramesDispatched(Reports(rs), chunks, true, event);
    ReportsDispatched(rs, event);
  }

  // ---- receptions and property changes mixed -------------------------------------------

  /** What the radio tells the host unasked: a frame it heard, or the value of a property. */
  datatype Notice =
    | FrameHeard(r: Reception)
    | PropertyChanged(header: byte, prop: word, data: seq<byte>)

  function NoticeFrame(n: Notice): seq<byte> {
    match n
    case FrameHeard(r) => Report(r)
    case PropertyChanged(header, prop, data) => [header, 4, 0, Lo(prop), Hi(prop)] + data
  }

  function NoticeFrames(ns: seq<Notice>): (fs: seq<seq<byte>>)
    ensures |fs| == |ns|
  {
    seq(|ns|, i requires 0 <= i < |ns| => NoticeFrame(ns[i]))
  }

  /** What the registered handlers are to be told, each notice by the handler it is for. */
  function Told(ns: seq<Notice>, raw: bool, event: bool): seq<HandlerCall> {
    if ns == [] then []
    else
      var before := Told(ns[..|ns| - 1], raw, event);
      match ns[|ns| - 1]
      case FrameHeard(r) => if raw then before + [RawFrame(r.frame, r.rssi, r.lqi)] else before
      case PropertyChanged(_, prop, data) => if event then before + [PropertyEvent(prop, data)] else before
  }

  lemma ReportIgnored(r: Reception, event: bool)
    ensures Dispatch(Report(r), false, event) == []
  {
  }

  lemma {:induction false} NoticesDispatched(ns: seq<Notice>, raw: bool, event: bool)
    requires forall i :: 0 <= i < |ns| && ns[i].PropertyChanged? ==> ns[i].prop != PROP_STREAM_RAW
    ensures DispatchAll(NoticeFrames(ns), raw, event) == Told(ns, raw, event)
  {
    hide Dispatch, Report;
    if ns != [] {
      var k := |ns| - 1;
      NoticesDispatched(ns[..k], raw, event);
      assert NoticeFrames(ns) == NoticeFrames(ns[..k]) + [NoticeFrame(ns[k])];
      DispatchAllSnoc(NoticeFrames(ns[..k]), NoticeFrame(ns[k]), raw, event);
      match ns[k] {
        case FrameHeard(r) =>
          ReportDispatched(r, event);
          ReportIgnored(r, event);
        case PropertyChanged(header, prop, data) => PropertyReported(header, prop, data, raw, event);
      }
    }
  }

  /**
   A stream of receptions and property changes in any order, cut into reads anywhere: each
   registered handler is told its own, in the order of the stream, and nothing stays buffered.
   */
  lemma NoticesArrive(ns: seq<Notice>, chunks: seq<seq<byte>>, raw: bool, event: bool)
    requires forall i :: 0 <= i < |ns| && ns[i].PropertyChanged? ==> ns[i].prop != PROP_STREAM_RAW
    requires Flatten(chunks) == EncodeAll(NoticeFrames(ns))
    ensures DispatchAll(Payloads(RunChunks(START, chunks).bodies), raw, event) == Told(ns, raw, event)
    ensures Pending(RunChunks(START, chunks).link) == []
  {
    hide DispatchAll, Payloads, EncodeAll, NoticeFrames, RunChunks, Pending, Told;
    FramesDispatched(NoticeFrames(ns), chunks, raw, event);
    NoticesDispatched(ns, raw, event);
  }

  lemma EncodeNothing() ensures EncodeAll([]) == [] {}

  lemma FlattenSnoc(chunks: seq<seq<byte>>, chunk: seq<byte>)
    ensures Flatten(chunks + [chunk]) == Flatten(chunks) + chunk
  {
    assert (chunks + [chunk])[..|chunks|] == chunks;
  }

  lemma RunNothing(link: Link) ensures Run(link, []) == Progress(link, []) {}

  lemma PayloadsNil()
    ensures Payloads([]) == [] && forall raw, event :: DispatchAll([], raw, event) == []
  {
  }

  lemma FlattenNothing() ensures Flatten([]) == [] {}

  lemma ChunkGrows(link: Link, chunks: seq<seq<byte>>, i: nat, raw: bool, event: bool)
    requires i < |chunks|
    ensures var sofar := Run(link, Flatten(chunks[..i]));
            var next := Run(sofar.link, chunks[i]);
            var all := Run(link, Flatten(chunks[..i + 1]));
            && all.link == next.link
            && Payloads(all.bodies) == Payloads(sofar.bodies) + Payloads(next.bodies)
            && DispatchAll(Payloads(all.bodies), raw, event) ==
               DispatchAll(Payloads(sofar.bodies), raw, event) + DispatchAll(Payloads(next.bodies), raw, event)
  {
    hide Run, Payloads, DispatchAll;
    var before, chunk := chunks[..i], chunks[i];
    var sofar := Run(link, Flatten(before));
    var next := Run(sofar.link, chunk);
    assert chunks[..i + 1] == before + [chunk];
    FlattenSnoc(before, chunk);
    RunConcat(link, Flatten(before), chunk);
    PayloadsConcat(sofar.bodies, next.bodies);
    DispatchAllConcat(Payloads(sofar.bodies), Payloads(next.bodies), raw, event);
  }

  lemma LogsGrow(bodies: seq<seq<byte>>, body: seq<byte>, raw: bool, event: bool)
    ensures Payloads(bodies + [body]) == Payloads(bodies) + Payloads([body])
    ensures DispatchAll(Payloads(bodies + [body]), raw, event) ==
            DispatchAll(Payloads(bodies), raw, event) + DispatchAll(Payloads([body]), raw, event)
  {
    hide Payloads, DispatchAll;
    PayloadsConcat(bodies, [body]);
    DispatchAllConcat(Payloads(bodies), Payloads([body]), raw, event);
  }

  /** One pair of flags: the automaton's move, and what it adds to the two logs. */
  lemma PairDone(buffer: seq<byte>, pos: nat, flag: nat, next: nat, bodies: seq<seq<byte>>, raw: bool, event: bool)
    requires pos <= flag < next < |buffer| && buffer[flag] == FLAG == buffer[next]
    requires FLAG !in buffer[pos..flag] && FLAG !in buffer[flag + 1..next]
    requires Run(START, buffer[..pos]) == Progress(START, bodies)
    ensures var body := buffer[flag + 1..next];
            && Run(START, buffer[..next + 1]) == Progress(START, bodies + [body])
            && Payloads(bodies + [body]) == Payloads(bodies) + Payloads([body])
            && DispatchAll(Payloads(bodies + [body]), raw, event) ==
               DispatchAll(Payloads(bodies), raw, event) + DispatchAll(Payloads([body]), raw, event)
  {
    hide Run, Payloads, DispatchAll;
    FoundPair(buffer, pos, flag, next);
    LogsGrow(bodies, buffer[flag + 1..next], raw, event);
  }

  lemma DispatchAllSnoc(frames: seq<seq<byte>>, f: seq<byte>, raw: bool, event: bool)
    ensures DispatchAll(frames + [f], raw, event) == DispatchAll(frames, raw, event) + Dispatch(f, raw, event)
  {
    assert (frames + [f])[..|frames|] == frames;
  }
}
