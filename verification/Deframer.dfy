/**
 How a byte stream falls into bodies: an automaton that looks at one octet at a time.
 The receive loop, which scans a growing buffer for pairs of flags, is proved to compute
 it in module RawSpinelDriver; here are the properties of the automaton.
 */
module Deframer {
  import opened Bytes
  import opened Hdlc

  /** Outside holds what came since the last closing flag, Inside what came since the opening one. */
  datatype Link = Outside(noise: seq<byte>) | Inside(body: seq<byte>)

  datatype Progress = Progress(link: Link, bodies: seq<seq<byte>>)

  const START := Outside([])

  function Step(p: Progress, b: byte): Progress {
    match p.link
    case Outside(noise) => if b == FLAG then p.(link := Inside([])) else p.(link := Outside(noise + [b]))
    case Inside(body) =>
      if b == FLAG then Progress(START, p.bodies + [body]) else p.(link := Inside(body + [b]))
  }

  /** The state after s, with the bodies completed on the way. */
  function Run(link: Link, s: seq<byte>): Progress {
    if s == [] then Progress(link, []) else Step(Run(link, s[..|s| - 1]), s[|s| - 1])
  }

  lemma RunSnoc(link: Link, s: seq<byte>, b: byte)
    ensures Run(link, s + [b]) == Step(Run(link, s), b)
  {
    assert (s + [b])[..|s|] == s;
  }

  lemma StepAfter(done: seq<seq<byte>>, p: Progress, b: byte)
    ensures Step(Progress(p.link, done + p.bodies), b) == Progress(Step(p, b).link, done + Step(p, b).bodies)
  {
  }

  lemma {:induction false} RunConcat(link: Link, s: seq<byte>, t: seq<byte>)
    ensures Run(link, s + t) ==
            Progress(Run(Run(link, s).link, t).link, Run(link, s).bodies + Run(Run(link, s).link, t).bodies)
  {
    hide Step;
    if t == [] {
      assert s + t == s;
    } else {
      var k := |t| - 1;
      RunConcat(link, s, t[..k]);
      RunSnoc(link, s + t[..k], t[k]);
      assert s + t == (s + t[..k]) + [t[k]];
      StepAfter(Run(link, s).bodies, Run(Run(link, s).link, t[..k]), t[k]);
    }
  }

  lemma {:induction false} RunNoFlag(link: Link, s: seq<byte>)
    requires FLAG !in s
    ensures Run(link, s) ==
            Progress(match link case Outside(n) => Outside(n + s) case Inside(b) => Inside(b + s), [])
  {
    if s != [] {
      var k := |s| - 1;
      RunNoFlag(link, s[..k]);
      assert s == s[..k] + [s[k]];
      match link {
        case Outside(n) => assert n + s == n + s[..k] + [s[k]];
        case Inside(b) => assert b + s == b + s[..k] + [s[k]];
      }
    } else {
      match link {
        case Outside(n) => assert n + s == n;
        case Inside(b) => assert b + s == b;
      }
    }
  }

  /** From outside, a body between two flags is delivered and leaves nothing behind. */
  lemma RunPair(noise: seq<byte>, body: seq<byte>)
    requires FLAG !in body
    ensures Run(Outside(noise), [FLAG] + body + [FLAG]) == Progress(START, [body])
  {
    RunSnoc(Outside(noise), [], FLAG);
    assert [] + [FLAG] == [FLAG];
    RunNoFlag(Inside([]), body);
    assert [] + body == body;
    RunConcat(Outside(noise), [FLAG], body);
    RunSnoc(Outside(noise), [FLAG] + body, FLAG);
  }

  // ---- chunks ----------------------------------------------------------------------

  function Flatten(chunks: seq<seq<byte>>): seq<byte> {
    if chunks == [] then [] else Flatten(chunks[..|chunks| - 1]) + chunks[|chunks| - 1]
  }

  /** Reading a stream chunk by chunk, the bodies of all chunks in order. */
  function RunChunks(link: Link, chunks: seq<seq<byte>>): Progress {
    if chunks == [] then Progress(link, [])
    else
      var before := RunChunks(link, chunks[..|chunks| - 1]);
      var last := Run(before.link, chunks[|chunks| - 1]);
      Progress(last.link, before.bodies + last.bodies)
  }

  /** Where the stream is cut makes no difference. */
  lemma {:induction false} ChunksDoNotMatter(link: Link, chunks: seq<seq<byte>>)
    ensures RunChunks(link, chunks) == Run(link, Flatten(chunks))
  {
    hide Run;
    if chunks != [] {
      var k := |chunks| - 1;
      ChunksDoNotMatter(link, chunks[..k]);
      RunConcat(link, Flatten(chunks[..k]), chunks[k]);
    } else {
      RunNoFlag(link, []);
    }
  }

  // ---- streams of encoded payloads --------------------------------------------------

  function EncodeAll(payloads: seq<seq<byte>>): seq<byte> {
    if payloads == [] then [] else EncodeAll(payloads[..|payloads| - 1]) + Encode(payloads[|payloads| - 1])
  }

  /** The payloads of those bodies that decode. */
  function Payloads(bodies: seq<seq<byte>>): seq<seq<byte>> {
    if bodies == [] then []
    else
      var before := Payloads(bodies[..|bodies| - 1]);
      match Decode(bodies[|bodies| - 1])
      case Some(p) => before + [p]
      case None => before
  }

  lemma {:induction false} PayloadsConcat(a: seq<seq<byte>>, b: seq<seq<byte>>)
    ensures Payloads(a + b) == Payloads(a) + Payloads(b)
  {
    hide Decode;
    if b == [] {
      assert a + b == a;
    } else {
      var k := |b| - 1;
      PayloadsConcat(a, b[..k]);
      assert (a + b)[..|a| + k] == a + b[..k];
    }
  }

  lemma PayloadsOne(body: seq<byte>)
    ensures Payloads([body]) == match Decode(body) case Some(p) => [p] case None => []
  {
    assert [body][..0] == [];
  }

  lemma StuffHasNoFlag(s: seq<byte>)
    ensures FLAG !in Stuff(s)
  {
    StuffIsCanonical(s);
    forall i | 0 <= i < |Stuff(s)| ensures Stuff(s)[i] != FLAG {
      assert CanonicalAt(Stuff(s), i);
    }
  }

  lemma RunEncoded(noise: seq<byte>, payload: seq<byte>)
    ensures Run(Outside(noise), Encode(payload)).link == START
    ensures Payloads(Run(Outside(noise), Encode(payload)).bodies) == [payload]
  {
    hide Run, Decode, Stuff, Sealed;
    StuffHasNoFlag(Sealed(payload));
    RunPair(noise, Stuff(Sealed(payload)));
    PayloadsOne(Stuff(Sealed(payload)));
    DecodeEncode(payload);
  }

  /** Encoded payloads, back to back, all arrive in order and leave nothing buffered. */
  lemma {:induction false} StreamRoundTrip(noise: seq<byte>, payloads: seq<seq<byte>>)
    ensures Payloads(Run(Outside(noise), EncodeAll(payloads)).bodies) == payloads
    ensures payloads != [] ==> Run(Outside(noise), EncodeAll(payloads)).link == START
  {
    hide Run, Encode;
    if payloads == [] {
      RunNoFlag(Outside(noise), []);
    } else {
      var k := |payloads| - 1;
      var before := EncodeAll(payloads[..k]);
      StreamRoundTrip(noise, payloads[..k]);
      RunConcat(Outside(noise), before, Encode(payloads[k]));
      var link := Run(Outside(noise), before).link;
      if k == 0 {
        RunNoFlag(Outside(noise), []);
        assert noise + [] == noise;
      }
      assert link.Outside?;
      RunEncoded(link.noise, payloads[k]);
      PayloadsConcat(Run(Outside(noise), before).bodies, Run(link, Encode(payloads[k])).bodies);
      assert payloads == payloads[..k] + [payloads[k]];
    }
  }

  // ---- noise before the stream ------------------------------------------------------

  function Flags(s: seq<byte>): nat {
    if s == [] then 0 else Flags(s[..|s| - 1]) + (if s[|s| - 1] == FLAG then 1 else 0)
  }

  /** Whether the automaton is inside depends only on the parity of the flags seen. */
  lemma {:induction false} FlagPhase(s: seq<byte>)
    ensures Run(START, s).link.Outside? <==> Flags(s) % 2 == 0
  {
    if s != [] {
      FlagPhase(s[..|s| - 1]);
    }
  }

  /** After noise with an even number of flags, the whole run is delivered. */
  lemma EvenNoise(noise: seq<byte>, payloads: seq<seq<byte>>)
    requires Flags(noise) % 2 == 0
    ensures Payloads(Run(START, noise + EncodeAll(payloads)).bodies) == Payloads(Run(START, noise).bodies) + payloads
  {
    hide Run, EncodeAll, Payloads;
    FlagPhase(noise);
    var p := Run(START, noise);
    RunConcat(START, noise, EncodeAll(payloads));
    StreamRoundTrip(p.link.noise, payloads);
    PayloadsConcat(p.bodies, Run(p.link, EncodeAll(payloads)).bodies);
  }

  lemma EmptyBody()
    ensures Decode([]) == None
  {
  }

  /** Out of phase, an encoded payload closes one body, is skipped as noise and opens the next. */
  lemma RunOutOfPhase(body: seq<byte>, payload: seq<byte>)
    ensures Run(Inside(body), Encode(payload)) == Progress(Inside([]), [body])
  {
    hide Sealed, Stuff;
    var inner := Stuff(Sealed(payload));
    StuffHasNoFlag(Sealed(payload));
    RunSnoc(Inside(body), [], FLAG);
    assert [] + [FLAG] == [FLAG];
    assert Run(Inside(body), [FLAG]) == Progress(START, [body]);
    RunNoFlag(START, inner);
    RunConcat(Inside(body), [FLAG], inner);
    RunSnoc(Inside(body), [FLAG] + inner, FLAG);
  }

  /**
   After noise with an odd number of flags, none of the run is delivered: the first flag only
   ends what the noise began, and from then on the loop pairs each closing flag with the next
   opening one.
   */
  lemma {:induction false} OddNoise(noise: seq<byte>, payloads: seq<seq<byte>>)
    requires Flags(noise) % 2 == 1 && payloads != []
    ensures Payloads(Run(START, noise + EncodeAll(payloads)).bodies) == Payloads(Run(START, noise + [FLAG]).bodies)
    ensures Run(START, noise + EncodeAll(payloads)).link == Inside([])
  {
    hide Run, Encode, Decode;
    var k := |payloads| - 1;
    var last := Encode(payloads[k]);
    FlagPhase(noise);
    if k == 0 {
      assert EncodeAll(payloads[..k]) + last == last;
      var p := Run(START, noise);
      RunOutOfPhase(p.link.body, payloads[0]);
      RunConcat(START, noise, last);
      RunSnoc(START, noise, FLAG);
    } else {
      var before := noise + EncodeAll(payloads[..k]);
      OddNoise(noise, payloads[..k]);
      RunOutOfPhase([], payloads[k]);
      RunConcat(START, before, last);
      assert noise + EncodeAll(payloads) == before + last;
      PayloadsConcat(Run(START, before).bodies, [[]]);
      PayloadsOne([]);
      EmptyBody();
    }
  }

  // ---- noise anywhere ----------------------------------------------------------------

  /** Noise, and the frame that comes after it. */
  datatype Segment = Segment(noise: seq<byte>, payload: seq<byte>)

  function Stream(segments: seq<Segment>): seq<byte> {
    if segments == [] then []
    else
      var s := segments[|segments| - 1];
      Stream(segments[..|segments| - 1]) + s.noise + Encode(s.payload)
  }

  function NoiseFlags(segments: seq<Segment>): nat {
    if segments == [] then 0
    else NoiseFlags(segments[..|segments| - 1]) + Flags(segments[|segments| - 1].noise)
  }

  predicate InPhase(segments: seq<Segment>) { NoiseFlags(segments) % 2 == 0 }

  /** Where the loop stands after a frame: only the parity of the flags in all the noise matters. */
  function LinkAfter(segments: seq<Segment>): Link { if InPhase(segments) then START else Inside([]) }

  /**
   What comes out of the noise of each segment, and then, in phase, the payload of its frame, or
   otherwise whatever the noise had begun.
   */
  function Salvaged(segments: seq<Segment>): seq<seq<byte>> {
    if segments == [] then []
    else
      var before, s := segments[..|segments| - 1], segments[|segments| - 1];
      var n := Run(LinkAfter(before), s.noise);
      Salvaged(before) + Payloads(n.bodies) +
      (match n.link case Outside(_) => [s.payload] case Inside(body) => Payloads([body]))
  }

  lemma {:induction false} PhaseOf(link: Link, s: seq<byte>)
    ensures Run(link, s).link.Outside? <==> (Flags(s) % 2 == 0) == link.Outside?
  {
    if s != [] {
      PhaseOf(link, s[..|s| - 1]);
    }
  }

  lemma FrameAfter(link: Link, payload: seq<byte>)
    ensures var p := Run(link, Encode(payload));
            && p.link == (if link.Outside? then START else Inside([]))
            && Payloads(p.bodies) == (match link case Outside(_) => [payload] case Inside(body) => Payloads([body]))
  {
    hide Run, Encode, Payloads;
    match link
    case Outside(noise) => RunEncoded(noise, payload);
    case Inside(body) => RunOutOfPhase(body, payload);
  }

  /**
   With noise of any kind between the frames: a frame is delivered exactly if the noise before it,
   from the start of the stream, held an even number of flags, and nothing else is lost or made up.
   */
  lemma {:induction false} NoiseAnywhere(segments: seq<Segment>)
    ensures Run(START, Stream(segments)).link == LinkAfter(segments)
    ensures Payloads(Run(START, Stream(segments)).bodies) == Salvaged(segments)
    ensures segments != [] ==>
              var before, s := segments[..|segments| - 1], segments[|segments| - 1];
              InPhase(segments) <==> Run(LinkAfter(before), s.noise).link.Outside?
  {
    hide Run, Encode, Payloads, Flags;
    if segments == [] {
      RunNoFlag(START, []);
      PayloadsNone();
    } else {
      var before, s := segments[..|segments| - 1], segments[|segments| - 1];
      NoiseAnywhere(before);
      PhaseOf(LinkAfter(before), s.noise);
      var p := Run(START, Stream(before));
      var n := Run(p.link, s.noise);
      var f := Run(n.link, Encode(s.payload));
      FrameAfter(n.link, s.payload);
      RunConcat(START, Stream(before), s.noise);
      RunConcat(START, Stream(before) + s.noise, Encode(s.payload));
      PayloadsConcat(p.bodies, n.bodies);
      PayloadsConcat(p.bodies + n.bodies, f.bodies);
    }
  }

  lemma PayloadsNone() ensures Payloads([]) == [] {}
}
