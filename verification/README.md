# A verified model of libzoh's link and network layers

libzoh is a Zigbee stack that runs on a host and talks to a radio co-processor over a serial
line. This project models the parts of it that carry data: the Spinel link with its check
sequence, octet stuffing and streaming receive loop; the network layer with its frames, route
table and neighbour table; the full NWK header parser; APS framing; and the two ZDO requests that
search the endpoint table. It proves what those parts keep, undo and deliver.

`dafny verify dfyconfig.toml` checks everything. The files, from the bottom up:

- `Bytes` octets, words, truncation and little-endian word lists, as the code converts them.
- `Crc16`, `CrcBits`, `CrcPolynomial` the check sequence: the loops as they are, the same
  computation one bit at a time, and division over GF(2) as the reference. The register is a 16-bit
  vector in a one-field datatype.
- `CrcDetection`, `CrcBursts`, `CrcOrder`, `CrcDistance` the errors that check catches: exactly
  which short bursts it misses, the order of x, and up to which length it catches any three flips.
- `Hdlc` stuffing and unstuffing around that check; `HdlcDamage` what becomes of bits flipped on the
  line, after stuffing. A body is what stands between two flags, escapes included; its content is
  what unescaping leaves, payload and check.
- `Deframer` a byte-at-a-time automaton, the reference for the receive loop; `RawSpinelDriver`
  the loop itself over its growing buffer, and the dispatch of Spinel frames.
- `NwkFrame` the frame builder and parser of the NWK layer; `NwkModel` what each step does to
  the tables; `ZigbeeNwk` the class that updates them in place; `NwkProperties`, `NwkFrames`,
  `RouteHistory`, `NeighborHistory` and `LinkStatusFrames` what every step and every run keeps and
  what a peer can read; `NwkEffects` what each operation does, told by state fields and octets alone.
- `NwkFrameHeader` the parser of the complete header with its optional parts.
- `ZigbeeAps` APS framing over the NWK class; `EndToEnd` the layers put together.
- `ZigbeeZdo` endpoint matching and descriptor responses.

Where the code leaves something open, the model does this:

- `m_ownShortAddr` is never initialised, so it is a constructor argument.
- The MAC is handed an empty frame (`src/ZigbeeNwk.cpp:95-97`); the frame recorded as emitted
  is the encrypted NWK frame of line 92. The receiver parses what the MAC hands it directly as
  an NWK frame, as line 277 does. Encryption and decryption are the copying stubs of the source.
- Entries made by `operator[]` start out as IDLE, sequence number 0, no hops.
- The clock is an argument of the steps that read it, in nanoseconds. What the serial port
  returns, whether it takes what is written and whether the MAC accepts a frame are inputs too.
  Iteration over a hash container yields the keys in some order, each once, and nothing is assumed
  about the order.
- Each public entry point is one atomic step.

Five things the code does that its comments do not suggest, each proved:

- `repairRoute` never broadcasts a request: it marks the entry first, and the discovery it then
  starts takes the mark for a search under way. A destination that suffers a route error stays
  unreachable until it sends a route command itself (`RouteHistory.RouteErrorSilences`).
- The check octets are sent low octet first although the register is most significant bit first,
  so content altered by a burst across the end of its payload can pass. Every burst of up to 12 bits
  is caught (`CrcBursts.ShortBurstRejected`), all content with a payload has a burst of 13 bits that
  is not (`CrcBursts.StraddlingBurstAccepted`), and of those up to 16 bits exactly twelve patterns
  escape, none inside the payload or inside the check (`CrcBursts.BurstAcceptedIff`).
- What the check catches in the content it does not catch on the line, because the decoder unescapes
  first: one flipped bit can make an octet an escape, and the shorter content can pass the check
  (`HdlcDamage.OneFlipDecodes`). As long as the same octets are taken for escapes, everything the
  check catches is refused (`HdlcDamage.OddFlipsRefused`, `FewFlipsRefused`, `ShortBurstRefused`),
  and up to 16 bits only the twelve patterns go through (`HdlcDamage.BurstDecodesIff`).
- A stray flag makes the receive loop lose frames, because it consumes both flags of each pair: a
  frame is delivered exactly if the noise before it held an even number of flags
  (`Deframer.NoiseAnywhere`).
- A trailing escape octet is dropped silently, so every payload also has a body that decodes to it
  and that the encoder never sends (`Hdlc.NotCanonicalDecodes`); the bodies that do not re-encode to
  themselves are exactly those that are not canonical (`Hdlc.ReencodeIff`).

## Model

| member | source | states |
|---|---|---|
| Bytes.ReadWritten | src/ZigbeeNwk.cpp:580-583 | a list of words written low octet first is read back from any place in a message by the hop loop of the parser |
| Bytes.WrittenRead | src/ZigbeeNwk.cpp:541-546 | the words the parser reads, written again, give the octets they were read from |
| Crc16.Crc16Ccitt | src/platform/RawSpinelDriver.cpp:259-271 | the two nested loops compute the fold of the octet step over the data from the given register |
| Crc16.CrcConcat | src/platform/RawSpinelDriver.cpp:259-271 | the check of a concatenation is the check of its second part continued from that of its first |
| Crc16.CrcWordOfBytes | src/platform/RawSpinelDriver.cpp:329-331 | the receiver reassembles exactly the register the sender split into low and high octet |
| Crc16.CrcBytesOfWord | src/platform/RawSpinelDriver.cpp:285-287 | splitting the reassembled register gives the two octets received |
| Crc16.AcceptsIff | src/platform/RawSpinelDriver.cpp:324-341 | content passes the check exactly if it is some payload followed by the two octets the encoder would append to it |
| CrcBits.ShiftLinear | src/platform/RawSpinelDriver.cpp:263-268 | the inner loop is linear over GF(2), conditional branch included |
| CrcBits.ShiftInjective | src/platform/RawSpinelDriver.cpp:263-268 | the inner loop loses no information |
| CrcBits.TakeInN | src/platform/RawSpinelDriver.cpp:262-268 | xoring bits into the top of the register at once equals taking them in one per shift |
| CrcBits.CrcIsSerial | src/platform/RawSpinelDriver.cpp:259-271 | for data of any length the octet-wise loop equals the bit-serial register, most significant bit first |
| CrcDetection.CrcLinear | src/platform/RawSpinelDriver.cpp:259-271 | the check of the difference of two messages is the difference of their checks |
| CrcDetection.ErrorUndetectedIff | src/platform/RawSpinelDriver.cpp:327-339 | accepted content altered in any way is accepted again exactly if the pattern of flipped bits is consistent under a check started from zero |
| CrcDetection.BurstDetected | src/platform/RawSpinelDriver.cpp:259-271 | two different messages of one length that agree outside 16 consecutive bits, anywhere, have different checks |
| CrcDetection.CrcKeepsParity | src/platform/RawSpinelDriver.cpp:259-271 | the parity of the register together with the bits consumed never changes |
| CrcDetection.AcceptedIsEven | src/platform/RawSpinelDriver.cpp:327-341 | accepted content, check included, has an even number of one bits |
| CrcDetection.OddErrorRejected | src/platform/RawSpinelDriver.cpp:327-339 | any odd number of flipped bits anywhere in accepted content is caught |
| CrcBursts.CrcOfPacked | src/platform/RawSpinelDriver.cpp:259-271 | bits that end a message of zeros, shifted in at once, leave in the register what the loop leaves after them |
| CrcBursts.CheckErrorIs | src/platform/RawSpinelDriver.cpp:285-287 | the flipped bits of the check octets in the order they travel are the difference of the two registers with its octets swapped |
| CrcBursts.BurstAcceptedIff | src/platform/RawSpinelDriver.cpp:324-339 | accepted content altered within any 16 consecutive bits is accepted again exactly if the flipped bits before and after the end of the payload are one of twelve listed patterns, and never if only the payload or only the check is altered |
| CrcBursts.ShortBurstRejected | src/platform/RawSpinelDriver.cpp:324-339 | accepted content altered within any 12 consecutive bits is not accepted, across the end of the payload too |
| CrcBursts.StraddlingBurstAccepted | src/platform/RawSpinelDriver.cpp:285-287 | 12 is the most: all accepted content with a payload has an accepted neighbour that differs from it within 13 consecutive bits |
| CrcOrder.MulPower | src/platform/RawSpinelDriver.cpp:263-268 | n turns of the inner loop are multiplication by x to the n modulo x^16 + x^12 + x^5 + 1 |
| CrcOrder.OrderOfX | src/platform/RawSpinelDriver.cpp:263-268 | n turns of the inner loop bring the register back to one exactly if n is a multiple of 32767 |
| CrcDistance.SyndromeOfUnit | src/platform/RawSpinelDriver.cpp:259-287 | a single flipped bit, payload or check octet as sent, disturbs the agreement of the two by one power of x |
| CrcDistance.TwoFlipsIff | src/platform/RawSpinelDriver.cpp:324-339 | accepted content with two bits flipped anywhere is accepted again exactly if their powers of x agree modulo 32767 |
| CrcDistance.FewFlipsRejected | src/platform/RawSpinelDriver.cpp:324-339 | accepted content of at most 4095 octets with one to three bits flipped anywhere is not accepted |
| CrcDistance.TwinAccepted | src/platform/RawSpinelDriver.cpp:324-339 | 4095 is the most: all longer accepted content has an accepted neighbour two flipped bits away |
| CrcPolynomial.DivisionStep | src/platform/RawSpinelDriver.cpp:263-268 | one bit through the register is one step of long division by x^16 + x^12 + x^5 + 1 |
| CrcPolynomial.RemainderUnique | src/platform/RawSpinelDriver.cpp:259-271 | that division has only one remainder of degree below 16 |
| CrcPolynomial.CrcIsRemainder | src/platform/RawSpinelDriver.cpp:259-271 | a register value is the remainder of init * x^(8n) + data * x^16 if and only if it is the check computed |
| Hdlc.HdlcEncode | src/platform/RawSpinelDriver.cpp:274-303 | the encoder's output is a flag, the stuffed payload and check, a flag |
| Hdlc.HdlcDecode | src/platform/RawSpinelDriver.cpp:306-342 | the decoder's outcome and output are those of unstuffing with the escaping flag and then the check, failures included |
| Hdlc.UnstuffStuff | src/platform/RawSpinelDriver.cpp:289-322 | unstuffing inverts stuffing and ends outside an escape |
| Hdlc.DecodeEncode | src/platform/RawSpinelDriver.cpp:274-342 | what was encoded decodes to the payload, for every payload |
| Hdlc.EncodedByOctets | src/platform/RawSpinelDriver.cpp:280-303 | the flags are 0x7E at both ends, and only 0x7E and 0x7D are escaped, as 0x7D 0x5E and 0x7D 0x5D |
| Hdlc.DecodeStuffed | src/platform/RawSpinelDriver.cpp:306-342 | a body made by stuffing decodes exactly if its unescaped content passes the check, and then to that payload |
| Hdlc.CanonicalIff | src/platform/RawSpinelDriver.cpp:289-297 | the bodies stuffing can produce are exactly those without a flag whose escapes are followed by 0x5D or 0x5E |
| Hdlc.StuffInjective | src/platform/RawSpinelDriver.cpp:289-297 | no two contents are stuffed alike |
| Hdlc.ReencodeIff | src/platform/RawSpinelDriver.cpp:306-342 | a body that decodes re-encodes to itself exactly if it is canonical |
| Hdlc.TrailingEscape | src/platform/RawSpinelDriver.cpp:310-322 | an escape octet with nothing after it does not change what a body decodes to |
| Hdlc.NotCanonicalDecodes | src/platform/RawSpinelDriver.cpp:306-342 | every payload has a body that decodes to it although the encoder can produce no such body |
| Hdlc.EncodedLength | src/platform/RawSpinelDriver.cpp:275-276 | the output is between n + 4 and the reserved 2n + 6 octets long, one more than n + 4 for each octet that needs an escape |
| Hdlc.DecodesBurstIff | src/platform/RawSpinelDriver.cpp:306-342 | a body whose content is an encoded payload and check altered within 16 consecutive bits decodes exactly if the alteration is one of the twelve patterns, and never if it keeps to the payload or to the check |
| Hdlc.DecodeRejectsShortBurst | src/platform/RawSpinelDriver.cpp:306-342 | a body whose content is altered within any 12 consecutive bits of payload and check does not decode |
| Hdlc.DecodeRejectsOddFlips | src/platform/RawSpinelDriver.cpp:306-342 | a body whose content has any odd number of flipped bits does not decode |
| HdlcDamage.UnstuffKeepsFlips | src/platform/RawSpinelDriver.cpp:310-322 | if the same octets of two bodies are taken for escapes, their contents have one length and differ in as many bits as the bodies |
| HdlcDamage.WindowKept | src/platform/RawSpinelDriver.cpp:310-322 | if the same octets of two bodies are taken for escapes and the bodies differ only within n consecutive bits, so do their contents |
| HdlcDamage.OddFlipsRefused | src/platform/RawSpinelDriver.cpp:306-342 | a frame with an odd number of bits flipped on the line is refused, provided the same octets are taken for escapes |
| HdlcDamage.FewFlipsRefused | src/platform/RawSpinelDriver.cpp:306-342 | a frame with one to three bits flipped on the line is refused, for payloads of at most 4093 octets, provided the same octets are taken for escapes |
| HdlcDamage.ShortBurstRefused | src/platform/RawSpinelDriver.cpp:306-342 | a frame damaged within any 12 consecutive bits of the line is refused, provided the same octets are taken for escapes |
| HdlcDamage.BurstDecodesIff | src/platform/RawSpinelDriver.cpp:306-342 | a frame damaged within 16 consecutive bits of the line decodes exactly if its content is off by one of the twelve patterns, provided the same octets are taken for escapes |
| HdlcDamage.OneFlipDecodes | src/platform/RawSpinelDriver.cpp:306-342 | the proviso on escapes is needed: the body of a payload, with one bit flipped on the line that makes an escape, decodes to another payload |
| HdlcDamage.RefusedLeavesNothing | src/platform/RawSpinelDriver.cpp:161-181 | a refused body without a flag delivers nothing and leaves the receive loop ready for the next frame |
| Deframer.RunConcat | src/platform/RawSpinelDriver.cpp:156-185 | reading two pieces one after the other is reading their concatenation |
| Deframer.ChunksDoNotMatter | src/platform/RawSpinelDriver.cpp:154-185 | however a stream is cut into reads, the same bodies come out in the same order and the same state remains |
| Deframer.StreamRoundTrip | src/platform/RawSpinelDriver.cpp:161-181 | encoded payloads back to back, after any flagless noise, come out exactly as they are and leave nothing pending |
| Deframer.FlagPhase | src/platform/RawSpinelDriver.cpp:161-181 | whether the loop is between frames depends only on the parity of the flags seen |
| Deframer.EvenNoise | src/platform/RawSpinelDriver.cpp:161-181 | after noise with an even number of flags every payload is delivered, after whatever the noise itself decodes to |
| Deframer.OddNoise | src/platform/RawSpinelDriver.cpp:161-181 | after noise with an odd number of flags none of the payloads is, and the loop stays out of phase |
| Deframer.NoiseAnywhere | src/platform/RawSpinelDriver.cpp:161-181 | with noise before every frame of a stream, what comes out is known: a frame is delivered exactly if the noise up to it held an even number of flags, otherwise it closes what the noise had begun |
| RawSpinel.Replay | src/platform/RawSpinelDriver.cpp:182-185 | a buffer with no flag, or one in front, stands for one automaton state and is rebuilt from it |
| RawSpinel.FoundPair | src/platform/RawSpinelDriver.cpp:162-180 | finding two flags and stepping past both is what the automaton does with the same octets |
| RawSpinel.OneFlagLeft | src/platform/RawSpinelDriver.cpp:167-172 | an opening flag without a closing one leaves the buffer from that flag on |
| RawSpinel.RawSpinelDriver.Feed | src/platform/RawSpinelDriver.cpp:155-185 | one pass leaves the buffer settled, in the automaton's state, and delivers the automaton's bodies that decode, each dispatched in order |
| RawSpinel.RawSpinelDriver.RxLoop | src/platform/RawSpinelDriver.cpp:150-191 | over any sequence of reads, frames, callbacks and final buffer are those of the whole stream read at once |
| RawSpinel.RawSpinelDriver.HandleHdlcFrame | src/platform/RawSpinelDriver.cpp:173-179 | a body that fails the check leads to nothing, one that passes to its dispatch |
| RawSpinel.RawSpinelDriver.HandleSpinelFrame | src/platform/RawSpinelDriver.cpp:210-252 | the callback made, if any, for every length, command, property and handler registration |
| RawSpinel.DispatchedByOctets | src/platform/RawSpinelDriver.cpp:210-252 | by the octets of a frame: other commands than 4 and short frames lead to nothing, STREAM_RAW with less than two octets to strength and quality zero, otherwise the last two octets are a signed strength and a quality |
| RawSpinel.RawSpinelDriver.SendSpinelFrame | src/platform/RawSpinelDriver.cpp:197-202 | exactly the encoded payload is written, and the result is the port's |
| RawSpinel.RawSpinelDriver.SendRawFrame | src/platform/RawSpinelDriver.cpp:73-94 | the encoding of a set request for STREAM_RAW under transaction 1 with the frame is written, and nothing else; the result is the port's |
| RawSpinel.RawSpinelDriver.SendSpinelSetProp | src/platform/RawSpinelDriver.cpp:126-143 | the encoding of a set request for the property under transaction 2 with the data is written, and nothing else; the result is the port's |
| RawSpinel.SetRequestRead | src/platform/RawSpinelDriver.cpp:73-143 | a reader of the line gets one frame from a request and finds in it the transaction, command 3, the property and the payload |
| RawSpinel.ReportDispatched | src/platform/RawSpinelDriver.cpp:224-240 | a reported frame reaches the raw handler without its last two octets, with the strength from -128 to 127 that was reported in two's complement, and the quality |
| RawSpinel.ReceptionsArrive | src/platform/RawSpinelDriver.cpp:150-252 | for every list of reports and every cutting of their encoded stream, the raw handler sees exactly those frames, strengths and qualities in order, and nothing stays buffered |
| RawSpinel.NoticesArrive | src/platform/RawSpinelDriver.cpp:150-252 | for receptions and property reports in any order and any cutting of their encoded stream, each registered handler is told exactly its own, in order, and nothing stays buffered |
| NwkFrame.BuildNwkFrame | src/ZigbeeNwk.cpp:557-589 | the pushes build the fixed octets, the source route when flagged and not empty, and the payload |
| NwkFrame.ParseNwkHeader | src/ZigbeeNwk.cpp:519-551 | the parser's verdict, header, hops and payload offset, truncated input included |
| NwkFrame.ParseWithRoute | src/ZigbeeNwk.cpp:531-589 | for hop lists of any length, the parser reads as many hops as the truncated count says |
| NwkFrame.SurvivesIff | src/ZigbeeNwk.cpp:519-589 | an outgoing frame is parsed back to the same header, hops and payload if and only if it has at most 255 hops |
| NwkEffects.BuildOnAir | src/ZigbeeNwk.cpp:557-589 | every octet of an outgoing frame: control, number, addresses low octet first, radius, 0x04 with count and hops if there are any, payload |
| NwkEffects.ParsedByOctets | src/ZigbeeNwk.cpp:519-551 | which octets the parser takes for what, and which frames are too short for it |
| NwkLayer.ZigbeeNwk.SendNwkFrame | src/ZigbeeNwk.cpp:49-98 | whole new state, frame and request of a send, its result, and termination of the mutual recursion with discovery |
| NwkLayer.ZigbeeNwk.InitiateRouteDiscovery | src/ZigbeeNwk.cpp:427-447 | nothing while a search is under way, otherwise the marked entry and one broadcast; true for a search under way or a broadcast the MAC takes |
| NwkLayer.ZigbeeNwk.RepairRoute | src/ZigbeeNwk.cpp:247-256 | an existing entry is marked for repair and nothing is emitted; true exactly if there was an entry |
| NwkLayer.ZigbeeNwk.InitiateManyToOneDiscovery | src/ZigbeeNwk.cpp:365-379 | one broadcast of the many-to-one request; true exactly if the node has joined and the MAC takes it |
| NwkLayer.ZigbeeNwk.LookupRoute | src/ZigbeeNwk.cpp:478-487 | a route is found exactly if its entry is ACTIVE |
| NwkLayer.ZigbeeNwk.StoreRoute | src/ZigbeeNwk.cpp:466-473 | the entry becomes ACTIVE with the given hops and keeps its discovery number |
| NwkLayer.ZigbeeNwk.UpdateNeighbor | src/ZigbeeNwk.cpp:259-267 | the entry of the sender is replaced by the latest reception, a known extended address kept unless a new one comes |
| NwkLayer.ZigbeeNwk.HandleManyToOneRequest | src/ZigbeeNwk.cpp:381-399 | a route straight to the sender, and one re-broadcast if the frame's radius exceeds one |
| NwkLayer.ZigbeeNwk.HandleRouteRecord | src/ZigbeeNwk.cpp:404-422 | the listed hops are stored for the sender, short input is ignored |
| NwkLayer.ZigbeeNwk.HandleRouteError | src/ZigbeeNwk.cpp:220-242 | only the origin reacts, and the entry ends up under repair, not FAILED |
| NwkLayer.ZigbeeNwk.ForwardFrame | src/ZigbeeNwk.cpp:336-359 | the frame goes whole to the hop after this node in its source route, or along a route of this node, or marks the destination for repair |
| NwkLayer.ZigbeeNwk.HandleInboundMacFrame | src/ZigbeeNwk.cpp:275-360 | every effect of a reception: neighbour entry, command, delivery or forwarding |
| NwkLayer.ZigbeeNwk.SendLinkStatus | src/ZigbeeNwk.cpp:141-166 | one broadcast of radius 2 listing every neighbour once with its quality, in an unspecified order |
| NwkLayer.ZigbeeNwk.PruneNeighbors | src/ZigbeeNwk.cpp:184-202 | exactly the entries older than 300 s disappear |
| NwkLayer.ZigbeeNwk.MaintenanceRound | src/ZigbeeNwk.cpp:126-138 | a link status for the table as it was, then the pruning |
| NwkEffects.InFields | src/ZigbeeNwk.cpp:259-319 | the fields of an entry made for a new address and of a neighbour heard, no effect as no change and no output, and that the payloads starting with 1 to 6 are commands |
| NwkEffects.SendRefused | src/ZigbeeNwk.cpp:49-56 | a node that is not running, or whose address is 0xFFFF, sends nothing and stays as it is |
| NwkEffects.SendGoesOut | src/ZigbeeNwk.cpp:59-97 | otherwise a broadcast or a frame to an ACTIVE destination is one frame with the stored hops and the radius asked for, 10 for zero |
| NwkEffects.SendLooks | src/ZigbeeNwk.cpp:59-73 | a frame to any other destination is dropped and the destination looked for instead |
| NwkEffects.DiscoverEffect | src/ZigbeeNwk.cpp:427-447 | a discovery under way is left alone; otherwise the entry is marked and numbered, and the broadcast carries command 1, that number and just that destination |
| NwkEffects.RequestByOctets | src/ZigbeeNwk.cpp:438-446 | the one frame of a step that asks for a destination is a broadcast of 0x01, 1 and its address, low octet first |
| NwkEffects.ManyToOneSent | src/ZigbeeNwk.cpp:365-379 | the many-to-one request of this node is a broadcast of 0x03 and the radius |
| NwkEffects.TableEffects | src/ZigbeeNwk.cpp:247-256 | all fields that setting and repairing a route leave, and that a destination without entry is not repaired |
| NwkEffects.LearntEffect | src/ZigbeeNwk.cpp:259-267 | all fields a reception leaves in the neighbour entry, the extended address kept unless a new one is learnt |
| NwkEffects.UnparsedIgnored | src/ZigbeeNwk.cpp:284-287 | a received frame that does not parse changes nothing |
| NwkEffects.ManyToOneEffect | src/ZigbeeNwk.cpp:381-399 | a received many-to-one request makes a direct route to its sender, and above radius one a running node with an address broadcasts it again, octet for octet |
| NwkEffects.RecordEffect | src/ZigbeeNwk.cpp:404-422 | a received route record makes a route with just the hops listed in it |
| NwkEffects.ErrorEffect | src/ZigbeeNwk.cpp:220-242 | a received route error that names this node puts the broken entry under repair and emits nothing |
| NwkEffects.OtherCommandEffect | src/ZigbeeNwk.cpp:295-318 | every other command, or one too short for its contents, only makes its sender a neighbour |
| NwkEffects.DeliveryEffect | src/ZigbeeNwk.cpp:328-335 | any other payload for this node or for all is handed up with both addresses if it is not empty and a callback is set |
| NwkEffects.ForwardedWhole | src/ZigbeeNwk.cpp:336-353 | a frame for another node leaves for the hop after this node, or along the ACTIVE entry, as one frame of radius 10 with that hop's stored route, and its payload is the whole frame received |
| NwkEffects.NotForwarded | src/ZigbeeNwk.cpp:336-359 | where the hops do not lead on or no entry is ACTIVE, it is dropped, and an entry there is for its destination is put under repair |
| NwkEffects.PruneEffect | src/ZigbeeNwk.cpp:184-202 | exactly the entries last heard more than 300 000 000 000 ns ago disappear, and nothing else changes |
| NwkEffects.SwitchEffects | src/ZigbeeNwk.cpp:12-47 | starting, stopping and registering the callback change just that and emit nothing |
| NwkProperties.StepMoves | src/ZigbeeNwk.cpp:49-487 | in one step of any kind an entry stays, is installed by a command from its address, is marked for repair, or is created asking for it |
| NwkProperties.RunKeepsInv | src/ZigbeeNwk.cpp:49-487 | in every run no entry rests in IDLE or FAILED, none has more than 255 hops, many-to-one entries have none, ACTIVE ones lead to their own key |
| NwkProperties.ActivatedIff | src/ZigbeeNwk.cpp:381-473 | an entry becomes ACTIVE exactly when a many-to-one request or a complete route record comes from its address |
| NwkProperties.RequestIff | src/ZigbeeNwk.cpp:427-447 | a request goes out exactly when a joined node is to send to a unicast address without any entry |
| NwkProperties.RequestIsBroadcast | src/ZigbeeNwk.cpp:438-446 | it is then the only frame of the step, a broadcast route request numbered 1 |
| NwkProperties.OneRequestPerDestination | src/ZigbeeNwk.cpp:427-447 | in every run each destination is asked for at most once, and its discovery number counts that |
| NwkProperties.SilentUntilInstalled | src/ZigbeeNwk.cpp:247-256 | an entry under discovery or repair stays so over any run without a command from its address, no request is repeated, and sends to it emit nothing |
| NwkFrames.StepEmits | src/ZigbeeNwk.cpp:49-98 | a step of any kind emits no frame, or one legible frame under the current sequence number, which it advances |
| NwkFrames.FramesAreNumbered | src/ZigbeeNwk.cpp:85-90 | in every run the k-th frame emitted parses at any peer and carries number k mod 256 and this node's address |
| NwkFrames.NumbersDistinct | src/ZigbeeNwk.cpp:89-90 | any 256 frames in a row carry different numbers |
| NwkFrames.SentFrameReads | src/ZigbeeNwk.cpp:76-90 | in every reachable state a sent frame reads at the peer as the same addresses, radius, number, stored hops and payload |
| NwkFrames.RecordedRouteTravels | src/ZigbeeNwk.cpp:404-422 | the hops a node reports are those a frame to it is then sent with and read with |
| NwkFrames.ManyToOneGoesDirect | src/ZigbeeNwk.cpp:381-399 | after a many-to-one request frames to its sender carry no hops |
| NeighborHistory.TableIsHistory | src/ZigbeeNwk.cpp:184-267 | after any interleaving of receptions and prunings an address is present exactly if heard and not found older than 300 s by a pruning since, with the data of its latest reception |
| LinkStatusFrames.LinkStatusReads | src/ZigbeeNwk.cpp:141-166 | the link status of a joined node reads at any peer as a broadcast of radius 2 with the listed qualities |
| LinkStatusFrames.NoLinkStatus | src/ZigbeeNwk.cpp:141-166 | a node that is not running, or has no address, sends no link status |
| LinkStatusFrames.LinkStatusReadIff | src/ZigbeeNwk.cpp:141-182 | a peer's length checks pass and the entries it reads are every neighbour with its quality exactly if there are at most 255 |
| RouteHistory.DeactivatedIff | src/ZigbeeNwk.cpp:220-256 | an ACTIVE entry ends exactly with a repair of that destination or a route error for this node that names it |
| RouteHistory.ActiveIsHistory | src/ZigbeeNwk.cpp:220-473 | in every run an entry is ACTIVE exactly if its address has reported a route and nothing has ended it since, and then has the next hop, hops and kind of the latest report |
| RouteHistory.RouteErrorSilences | src/ZigbeeNwk.cpp:220-256 | a route error for this node leads to no frame and no request, and over any run without a route command from the destination it names, nothing is asked for and whatever is sent there is dropped |
| NwkHeader.Parse | src/ZigbeeNwkHeader.cpp:9-106 | the parser's fields for every input, and the length it has counted when it stops, in each way of failing too |
| NwkHeader.HeaderByOctets | src/ZigbeeNwkHeader.cpp:22-46 | which bit of the control octet and which octets each fixed field of a parsed header is |
| NwkHeader.PartsByOctets | src/ZigbeeNwkHeader.cpp:48-103 | which octets the hops, the security control, the counter and the key identifier are, and where the header ends |
| NwkHeader.FailsByOctets | src/ZigbeeNwkHeader.cpp:9-106 | where the parser gives up for lack of octets, and the length it has counted by then |
| NwkHeader.BuildHeader | src/ZigbeeNwkHeader.cpp:108-131 | the serialiser gives the first seven octets of the complete encoding |
| NwkHeader.FixedByOctets | src/ZigbeeNwkHeader.cpp:108-131 | which octet of the serialised header each field is |
| NwkHeader.ParseEncode | src/ZigbeeNwkHeader.cpp:9-106 | every header the layout allows is parsed back, wherever it stands in the data |
| NwkHeader.EncodeParse | src/ZigbeeNwkHeader.cpp:9-106 | what parses lies within the data, has the length its parts add up to, and re-encodes to the octets consumed |
| NwkHeader.ParseIff | src/ZigbeeNwkHeader.cpp:9-106 | the parser returns a header exactly where its encoding stands, whatever is before and after |
| Aps.ZigbeeAps.SendApsData | src/ZigbeeAps.cpp:44-74 | the NWK state and frame after a send, nothing when stopped or without a link key for a secured frame, and the result in each case |
| Aps.SendApsEffect | src/ZigbeeAps.cpp:44-74 | a stopped layer, or a secured send without the link key, emits nothing, and exactly which sends return true |
| Aps.ApsFrameByOctets | src/ZigbeeAps.cpp:50-61 | the six octets in front of a payload: 0x40 or 0x00 by security, 0x22, endpoint, cluster low octet first, endpoint |
| Aps.IndicatedByOctets | src/ZigbeeAps.cpp:77-105 | which octets of a payload become endpoints, cluster and data, whatever the first two are |
| Aps.ZigbeeAps.HandleNwkPayload | src/ZigbeeAps.cpp:77-105 | one indication for a payload of at least six octets when a callback is set |
| Aps.ZigbeeAps.Start | src/ZigbeeAps.cpp:12-23 | the NWK layer is running with the callback registered, and a second start changes nothing |
| Aps.IndicateFrame | src/ZigbeeAps.cpp:50-104 | an APS frame is indicated with the endpoints, cluster and payload it was built from and is never taken for an NWK command |
| Aps.SingleHopDelivery | src/ZigbeeAps.cpp:44-105 | a sent message is indicated at a peer that hears it exactly if the peer has its callback and is addressed or the frame is broadcast |
| EndToEnd.AllAccepted | src/ZigbeeAps.cpp:44-105 | a run of messages is accepted one by one in order, the sender's routes untouched |
| EndToEnd.MessagesArrive | src/platform/RawSpinelDriver.cpp:150-252 | messages sent over APS and NWK, reported by the radio over the serial link in any pieces, are indicated to the receiving applications as sent and in order |
| Zdo.ZdoEndpointTable.AddSimpleDescriptor | src/ZdoEndpointTable.cpp:3-5 | the descriptor is stored under its own endpoint, replacing an earlier one |
| Zdo.ZdoEndpointTable.GetSimpleDescriptor | src/ZdoEndpointTable.cpp:7-13 | found exactly if stored, and then the stored one |
| Zdo.ZdoEndpointTable.GetActiveEndpoints | src/ZdoEndpointTable.cpp:15-20 | every stored endpoint once |
| Zdo.ParseMatchIff | src/ZigbeeZdo.cpp:287-308 | the length checks pass with this outcome exactly if the payload starts with the encoding of the request |
| Zdo.MatchByOctets | src/ZigbeeZdo.cpp:287-308 | which octets of a match request are target, profile and the two lists, and which requests are too short |
| Zdo.MatchesByClusters | src/ZigbeeZdo.cpp:311-344 | a descriptor matches by its profile and a common cluster of the same kind for each list that is not empty |
| Zdo.ZigbeeZdo.AnyCommon | src/ZigbeeZdo.cpp:320-338 | true exactly if the asked list is empty or shares a cluster with the stored one |
| Zdo.ZigbeeZdo.FindMatches | src/ZigbeeZdo.cpp:311-344 | lists once each exactly the endpoints whose stored descriptor has the profile and meets both lists |
| Zdo.ZigbeeZdo.HandleMatchDescReq | src/ZigbeeZdo.cpp:283-356 | a request that passes the checks and addresses this node is answered with exactly those endpoints through the layers below, any other leaves everything as it was |
| Zdo.CountOctetIff | src/ZigbeeZdo.cpp:346-352 | the count octet is the number listed unless all 256 endpoint numbers match |
| Zdo.ZigbeeZdo.DescribeEndpoint | src/ZigbeeZdo.cpp:227-253 | pushes and back-patch give the response with the truncated length of what follows it |
| Zdo.ZigbeeZdo.HandleSimpleDescReq | src/ZigbeeZdo.cpp:212-256 | a request that is too short or for another node leaves everything as it was; one for this node is answered to its sender, with the error for an endpoint not stored, otherwise with that endpoint's descriptor, which reads back exactly up to 125 clusters |
| Zdo.ZigbeeZdo.SendZdoResponse | src/ZigbeeZdo.cpp:400-405 | the response leaves as an unsecured APS frame between the two endpoints zero, with the network layer's resulting state and frame, and the result of that send |
| Zdo.SimpleResponseIff | src/ZigbeeZdo.cpp:227-253 | the back-patched length is right, and a reader that relies on it recovers the stored descriptor, if and only if there are at most 125 clusters |
| Zdo.SimpleResponseByOctets | src/ZigbeeZdo.cpp:227-253 | every octet of the descriptor response, input clusters before output clusters |
| Zdo.MatchResponseByOctets | src/ZigbeeZdo.cpp:346-353 | every octet of the match response |
| Zdo.ResponseArrives | src/ZigbeeZdo.cpp:400-405 | a response to a node there is a route to is indicated there, between the endpoints zero, with the cluster and payload it was made with |
| Zdo.DescriptorArrives | src/ZigbeeZdo.cpp:212-256 | a requester there is a route to hears the answer about a stored endpoint and reads its descriptor, under that endpoint's number, up to 125 clusters |
| Zdo.MatchAnswerArrives | src/ZigbeeZdo.cpp:283-356 | a requester there is a route to hears the answer and reads from it exactly the endpoints that match, unless all 256 do, when it reads nothing |

## Left out

- A bit flipped on the line into or out of a flag: the receive loop then cuts the stream elsewhere, and nothing rules out that a piece passes the check; the theorems on damage are about the octets the decoder is handed.
- The serial port, threads, sleeps and logging: only the sequence of reads matters to the link.
- Mutexes and interleavings: the code re-enters locks that are not recursive, so a model of the locks would not have the runs the code intends.
- Real encryption and the NWK frame counter: the functions of the security manager are stubs that copy; only the missing link key makes one fail.
- Delivery over several hops and the end of a flood: forwarding wraps the whole received frame as a new payload and a re-broadcast starts with a fresh radius, so neither holds.
- The association handling, property events and lock of the MAC: illustrative stubs; frames pass through.
- Route request and route reply handlers: their bodies are empty.
- sendRouteError: nothing calls it.
- Stopping the APS layer, and the second APS callback, which nothing invokes.
- Sizes near the limit of size_t, where `offset + 7` in the header parser would wrap: sizes are unbounded here.
- The dispatch of ZDO frames by cluster, the link status a peer sends (parsed and ignored), the remaining ZDO replies, ZCL attribute access, the MAC header and debug printers: fixed layouts and switches over them, which keep no state.
