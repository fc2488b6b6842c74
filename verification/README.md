# Verified model of the mediasoup signalling server

A Dafny model of the parts of this repository that carry its invariants, with proofs about them:

- **ORTC negotiation** (`ortc.ts` and its Rust port): router capabilities, producer mapping, consumable parameters,
  consumer parameters and pipe consumers, as one pipeline.
- **Channels** between Node and the worker (`Channel.ts`, `PayloadChannel.ts`) and the Go decoder of worker messages.
- **Room signalling** in Go (`worker/worker.go`): users join, downstreams are refreshed, users leave. The worker
  socket is a trace of commands.
- **SCTP stream ids** of a transport.
- Small exact cores: NTP time and RTP timestamps, DTLS fingerprints, MID numbering of the downstream offer.

Code that changes things step by step is modelled by methods and classes, and each is proved against a
specification function; the laws are lemmas about those functions. The H.264 profile library is a parameter of
function type, so every statement about codecs holds for every such library. Random numbers, generated ids and the
order in which maps are ranged over are inputs or arbitrary choices.

| file | models |
|---|---|
| `Codecs`, `RouterCapabilities`, `RouterRequests`, `SupportedCodecs`, `ProducerMapping`, `Consumable`, `RtxSanitizing`, `Consumer`, `ScalabilityModes`, `ConsumerParameters`, `Pipe` | the ORTC pipeline, stage by stage (`SampleCodecs` holds codecs for counterexamples) |
| `Framing`, `Requests`, `Channel`, `PayloadChannel` | the Node channels |
| `WorkerDecoder` | the Go decoder |
| `WorkerTrace`, `RoomMedia`, `Mesh`, `RoomCommands`, `RoomMaps`, `Rooms`, `RoomRuns`, `RoomHistory`, `BundleMids`, `DownOffer` | the signalling server |
| `SctpStreams`, `NtpTime`, `Fingerprint` | the rest |

## What is false, and exactly when it holds

- The re-mapping of pipe codecs is the identity if and only if every media codec that shares a payload type with an
  earlier one agrees with it on the parameters that are compared for the earlier one's MIME type
  (`Pipe.RemapIdentityExact`). Two VP9 profiles under one payload type break it (`Pipe.RemapAmbiguous`).
- The TypeScript and the Rust way of dropping useless RTX codecs agree if and only if no RTX codec depends only on
  later RTX codecs that are dropped themselves (`RtxSanitizing.SweepIsFilterIff`, `RtxSanitizing.PortsDiffer`);
  on everything the pipeline produces they do (`Consumer.PortsAgree`).
- `canConsume` is sound but not complete (`Consumer.CanConsumeIncomplete`); `Consumer.CanConsumeExact` gives the
  exact gap.
- The scalability mode of a simulcast consumer reads back if and only if there are at most 99 encodings
  (`ConsumerParameters.ModeOfLayers`).
- A chunked stream is received as it was sent if and only if the buffer never overflows (`Framing.ChunkIndependence`).
- A payload that overflows the buffer of the payload channel leaves its notification waiting, and the next frame is
  emitted in its place, even a reply (`PayloadChannel.OverflowMispairs`). Frames arrive as sent, and are paired
  rightly, if and only if the buffer never overflows (`PayloadChannel.NotificationPairing`).
- The Go decoder starts afresh with every read, so it delivers a stream of messages if and only if every cut falls
  between two messages (`WorkerDecoder.DeliveredIff`). A message cut anywhere is lost
  (`WorkerDecoder.StraddlingRead`), and the four longest sizes it accepts never fit a read
  (`WorkerDecoder.LongestDelivered`).
- Pending requests stay reachable over a run if and only if no request ever finds its id in the table
  (`Requests.RunTracks`); a request that waits for 4294967295 others is lost (`Requests.IdTakenOver`), and closing
  the channel then does not settle it either (`Requests.CloseSettlesAll`).
- A rejected `consumeData` never gives its stream id back, so ids run out exactly when pending, live and lost ones
  add up to the number of streams (`SctpStreams.Transport.FullIff`, `SctpStreams.RejectAll`).
- A user who joins under an id that is already in the room makes the predecessor's transports leak until the room
  closes; nothing else leaks (`Rooms.Server.Join`, `RoomRuns.Serve`, `RoomRuns.ReusedIdLeaks`).
- A departure refreshes the room that was ranged over last instead of the rooms that lost a user, and never a room
  with one user left. Those rooms stay stale: nobody misses a consumer, but there are consumers for users who are
  gone (`Rooms.Server.Leave`, `RoomRuns.Serve`, `RoomRuns.StaleRoomNotMeshed`).
- MIDs agree with the BUNDLE group if and only if every remote user but the last ones has one audio and one video
  consumer (`BundleMids.MidsAgree`, `BundleMids.UntidyMids`); in a meshed room they always do
  (`DownOffer.MeshedOffer`).
- The parser of fingerprints accepts more than the printer writes (`Fingerprint.LowerCaseLost`); re-printing gives
  the input back if and only if it was canonical (`Fingerprint.PrintParsed`).

## Model

| member | source | states |
|---|---|---|
| `Codecs.MatchSameKind` | mediasoup-3.12.16/node/src/ortc.ts:1402-1519 | codecs whose MIME types agree up to case are both RTX or neither, and so for video and H.264; matching never crosses these kinds |
| `Codecs.MatchMeans` | mediasoup-3.12.16/node/src/ortc.ts:1402-1519 | what matching means, both ways and with the parameter names written out: strict matching is equal lower-case MIME type, clock rate and channels, and for multiopus equal stream counts, for H.264 equal packetization mode and a library that agrees, for VP9 equal profile; lenient matching leaves out the last two |
| `SampleCodecs.RtxByName` | mediasoup-3.12.16/node/src/ortc.ts:1402-1405 | which names are RTX, on either side of the pattern |
| `SampleCodecs.VideoByName` | mediasoup-3.12.16/node/src/ortc.ts:99-120 | which names are video, on either side of the pattern |
| `SampleCodecs.H264ByName` | mediasoup-3.12.16/node/src/ortc.ts:1455-1456 | which names are H.264 |
| `RouterCapabilities.ChoosePayloadType` | mediasoup-3.12.16/node/src/ortc.ts:761-791 | the application's payload type, else the fixed one of the codec, else the first free dynamic one, else an allocation error; and the pool is left without exactly that one |
| `RouterCapabilities.AppendCodec` | mediasoup-3.12.16/node/src/ortc.ts:793-831 | a duplicate payload type is an error; a video codec is followed by an RTX codec with the first free payload type; the pool is again the dynamic range without the used ones |
| `RouterCapabilities.GenerateRouterRtpCapabilities` | mediasoup-3.12.16/node/src/ortc.ts:720-835 | the loop with its shrinking pool computes, errors included, the fold that recomputes the free payload types from the codecs every time |
| `RouterCapabilities.FreeMore` | mediasoup-3.12.16/rust/src/ortc.rs:198-317 | the pool invariant: the free payload types after a codec is added are those before, in order, without the new one |
| `RouterCapabilities.RouterCodecsShape` | mediasoup-3.12.16/node/src/ortc.ts:734-832 | on success payload types are pairwise distinct, every video codec is directly followed by the RTX codec whose apt names it, and there is no other RTX codec |
| `RouterRequests.RouterCodecsIff` | mediasoup-3.12.16/node/src/ortc.ts:720-835 | exactly which list of codecs a router gets, request by request: the first supported codec of the same kind with the requested parameters over its own and its own feedback, under the requested, else the fixed, else the first free payload type, and for video its RTX codec; the call succeeds with a list if and only if the list is this |
| `RouterRequests.RequestFails` | mediasoup-3.12.16/node/src/ortc.ts:746-797 | a request is unsupported if and only if no supported codec is of its kind; a payload type that is taken is the duplicate error |
| `RouterRequests.FreeHeadIff` | mediasoup-3.12.16/node/src/ortc.ts:42-47 | the next dynamic payload type is the lowest free of 100 to 127, and the lowest free of 96 to 99 only when those are taken |
| `SupportedCodecs.SupportedIsValid` | mediasoup-3.12.16/node/src/supportedRtpCapabilities.ts:5-276 | no supported codec is RTX and no fixed payload type lies in the dynamic range, which is all the allocator assumes |
| `ProducerMapping.MatchMedia` | mediasoup-3.12.16/node/src/ortc.ts:857-877 | the first loop fails exactly as the mapping does, or fills the map for all media codecs with the first strict match and rewrites the H.264 parameters in place |
| `ProducerMapping.MatchRtx` | mediasoup-3.12.16/node/src/ortc.ts:879-913 | over the codecs as the first loop rewrote them, an RTX codec is mapped through the codec its apt names to the router RTX codec for the mapped payload type; every way to fail is told apart |
| `ProducerMapping.GetProducerRtpParametersMapping` | mediasoup-3.12.16/node/src/ortc.ts:843-923 | both loops and the listing give the reference mapping, in insertion order, or its first error |
| `ProducerMapping.MediaMapsIff` | mediasoup-3.12.16/node/src/ortc.ts:857-877 | a media codec is mapped to the first router codec with the same MIME type, clock rate, channels and compared parameters, and fails if and only if there is none |
| `ProducerMapping.UnsupportedFails` | mediasoup-3.12.16/node/src/ortc.ts:857-877 | the first media codec without one is the error of the whole mapping |
| `ProducerMapping.RtxMapsIff` | mediasoup-3.12.16/node/src/ortc.ts:879-913 | over the codecs of a router, an RTX codec is mapped if and only if the first codec its apt names is a media codec that is mapped to a video codec |
| `ProducerMapping.RewrittenMeans` | mediasoup-3.12.16/node/src/ortc.ts:1478-1491 | what the mapping leaves in the producer: `profile-level-id` of an H.264 codec is the negotiated one, or absent; everything else is as it was |
| `ProducerMapping.AllMapped` | mediasoup-3.12.16/node/src/ortc.ts:915-923 | on success every codec of the producer has a router codec |
| `ProducerMapping.RtxTarget` | mediasoup-3.12.16/node/src/ortc.ts:879-913 | the apt of a mapped RTX codec names a media codec, never RTX, and the two are mapped to neighbours in the router |
| `ProducerMapping.LookupMedia` | mediasoup-3.12.16/node/src/ortc.ts:978-984 | looking up a payload type finds the target of the first media codec with it, although the list is ordered media first |
| `ProducerMapping.MappingCommutesWithApt` | mediasoup-3.12.16/node/src/ortc.ts:857-923 | the apt of the mapped RTX codec is the mapped apt |
| `ProducerMapping.MappingTotal` | mediasoup-3.12.16/node/src/ortc.ts:915-923 | with distinct payload types every codec's own payload type is looked up to its own target |
| `Consumable.GetConsumableCodecs` | mediasoup-3.12.16/node/src/ortc.ts:972-1017 | the loop computes the consumable codecs, or reports a lookup that found nothing |
| `Consumable.ConsumableDefined` | mediasoup-3.12.16/node/src/ortc.ts:982-1017 | after a successful mapping no lookup is ever undefined, and the result is, codec by codec, the router codec with the producer's parameters and its RTX neighbour |
| `Consumable.ConsumableHasShape` | mediasoup-3.12.16/node/src/ortc.ts:972-1017 | each consumable RTX codec directly follows the media codec it repairs, and no apt names an RTX codec |
| `Pipe.ConsumableCarries` | mediasoup-3.12.16/node/src/ortc.ts:972-1017 | with distinct payload types, among the consumable codecs is for every media codec of the producer one with its MIME type up to case, clock rate, channels and parameters, and with the payload type and feedback of its router codec |
| `RtxSanitizing.SanitizeBackward` | mediasoup-3.12.16/node/src/ortc.ts:1169-1189 | the backward loop that splices in place computes the sweep, and reports whether RTX is left |
| `RtxSanitizing.SanitizeTwoPass` | mediasoup-3.12.16/rust/src/ortc.rs:681-704 | collecting indices and removing them computes the plain filter |
| `RtxSanitizing.SweepIsFilterIff` | mediasoup-3.12.16/node/src/ortc.ts:1169-1189 | the in-place sweep equals the filter if and only if every RTX codec whose apt is found at all is found at or before its own place, or in a codec that stays |
| `RtxSanitizing.SweepIsFilter` | mediasoup-3.12.16/node/src/ortc.ts:1169-1189 | whenever no apt names an RTX codec they agree |
| `RtxSanitizing.PortsDiffer` | mediasoup-3.12.16/rust/src/ortc.rs:681-704 | without that invariant the two ports disagree on a concrete list |
| `Consumer.PortsAgree` | mediasoup-3.12.16/rust/src/ortc.rs:681-704 | on everything the pipeline produces, for every remote endpoint, the two ports keep the same codecs |
| `Consumer.MatchConsumable` | mediasoup-3.12.16/node/src/ortc.ts:1141-1167 | the matching loop selects the supported codecs in order, with the remote's feedback and without NACK when RTX is off |
| `Consumer.SupportedIff` | mediasoup-3.12.16/node/src/ortc.ts:1148-1159 | a codec is supported if and only if the remote endpoint has a capability of the same media format |
| `Consumer.NarrowedFeedback` | mediasoup-3.12.16/node/src/ortc.ts:1160-1165 | its feedback is that of the first such capability, without plain NACK exactly when RTX is off |
| `Consumer.CanConsume` | mediasoup-3.12.16/node/src/ortc.ts:1074-1104 | the result is whether the first supported consumable codec exists and is a media codec |
| `Consumer.CanConsumeSound` | mediasoup-3.12.16/node/src/ortc.ts:1074-1104 | if it can be consumed, making the consumer does not fail, with and without RTX |
| `Consumer.ConsumerClosure` | mediasoup-3.12.16/node/src/ortc.ts:1141-1195 | consumer codecs are a subsequence of the consumable ones up to feedback, start with a media codec, and hold the media codec of every RTX codec |
| `Consumer.ConsumerCodecsExact` | mediasoup-3.12.16/node/src/ortc.ts:1141-1195 | exactly which codecs survive: supported media codecs, and supported RTX codecs whose apt names a supported one; failure if and only if no supported media codec comes before the RTX codecs that survive |
| `Consumer.SurvivesIff` | mediasoup-3.12.16/node/src/ortc.ts:1141-1195 | what surviving is: supported, and for an RTX codec also that RTX is on and some supported codec has the payload type its apt names |
| `Consumer.NoRtxWhenDisabled` | mediasoup-3.12.16/node/src/ortc.ts:1154-1156 | with RTX off no codec of a consumer is RTX, for every list of codecs |
| `Consumer.RtxWhenEnabled` | mediasoup-3.12.16/node/src/ortc.ts:1169-1189 | with RTX on, a supported RTX codec whose apt names a supported codec is there, on every list where no apt names RTX |
| `Consumer.MediaLeadsWhenDistinct` | mediasoup-3.12.16/node/src/ortc.ts:1191-1195 | with distinct payload types that is failure if and only if no media codec is supported |
| `Consumer.CanConsumeExact` | mediasoup-3.12.16/node/src/ortc.ts:1074-1195 | for every list of codecs: it can be consumed if and only if the consumer can be made and no RTX codec is supported before all supported media codecs |
| `Consumer.CanConsumeSingle` | mediasoup-3.12.16/node/src/ortc.ts:1074-1104 | with one media codec the test is exact |
| `Consumer.CanConsumeIncomplete` | mediasoup-3.12.16/node/src/ortc.ts:1074-1104 | a concrete case that could be consumed although the test says no |
| `ConsumerParameters.Common` | mediasoup-3.12.16/node/src/ortc.ts:1197-1205 | the header extensions are exactly the common ones, as often as in the consumable list |
| `ConsumerParameters.CommonAppend` | mediasoup-3.12.16/node/src/ortc.ts:1197-1205 | and in its order |
| `ConsumerParameters.MakeEncodings` | mediasoup-3.12.16/node/src/ortc.ts:1243-1318 | one encoding with the largest bitrate and the first scalability mode, turned into spatial layers if there are several, or for a pipe one per encoding with consecutive ssrcs; an RTX ssrc if and only if RTX is left |
| `ConsumerParameters.ModeOfLayers` | mediasoup-3.12.16/node/src/ortc.ts:1256-1272 | the mode of a simulcast consumer reads as one spatial layer per encoding with the temporal layers there were, if and only if there are at most 99 |
| `ScalabilityModes.ParseSimulcast` | mediasoup-3.12.16/node/src/scalabilityModes.ts:1-31 | a mode written for simulcast is parsed back if and only if its first number has at most two digits |
| `ScalabilityModes.WrittenIsRead` | mediasoup-3.12.16/node/src/scalabilityModes.ts:1-31 | L or S, two numbers up to 99 around a T, and `_KEY` or not, are read as these layers, with key frame dependency exactly for `_KEY` |
| `ConsumerParameters.GetConsumerRtpParameters` | mediasoup-3.12.16/node/src/ortc.ts:1113-1321 | fails exactly when no media codec is left; otherwise codecs, extensions and encodings as above, and rtcp as it was |
| `ConsumerParameters.ReduceKeepsRtx` | mediasoup-3.12.16/node/src/ortc.ts:1207-1241 | reducing feedback neither adds nor removes RTX |
| `ConsumerParameters.FeedbackExclusive` | mediasoup-3.12.16/node/src/ortc.ts:1207-1241 | no consumer codec has both REMB and transport-wide congestion control, and none has NACK when RTX is off |
| `ConsumerParameters.ReducedMeans` | mediasoup-3.12.16/node/src/ortc.ts:1207-1241 | which feedback stays, with the extension URIs written out: transport-cc only with its extension, REMB only without that and with abs-send-time, all else always |
| `ConsumerParameters.RtxStreamIff` | mediasoup-3.12.16/node/src/ortc.ts:1243-1318 | a consumer gets an RTX stream if and only if RTX is on and both an RTX codec and the codec it repairs are supported |
| `Pipe.GetPipeConsumerCodecs` | mediasoup-3.12.16/node/src/ortc.ts:1329-1366 | the loop keeps all codecs, without the RTX ones when RTX is off, and reduces their feedback |
| `Pipe.PipeCarries` | mediasoup-3.12.16/node/src/ortc.ts:1342-1347 | with RTX every codec is carried, one to one; without, exactly the media codecs, in order |
| `Pipe.PipeFeedbackMeans` | mediasoup-3.12.16/node/src/ortc.ts:1349-1356 | of the feedback exactly nack pli and ccm fir stay, and plain nack if RTX is on; no bandwidth estimation |
| `Pipe.PipedWithRtx` | mediasoup-3.12.16/node/src/Router.ts:907-919 | with RTX the pipe codecs hold, behind every video codec, the RTX codec whose apt names it |
| `Pipe.RemapIdentityExact` | mediasoup-3.12.16/node/src/Router.ts:907-919 | for every producer that maps, mapping the pipe codecs again over the router's own capabilities succeeds and maps every payload type, RTX included, to itself if and only if the producer's payload types are unambiguous |
| `Pipe.ImageMatchesIff` | mediasoup-3.12.16/node/src/ortc.ts:1407-1519 | for one media codec: what the router makes of it first matches the router codec it was given exactly when it agrees with the first media codec of its payload type |
| `Pipe.LibrarySuitsWhen` | mediasoup-3.12.16/node/src/ortc.ts:1455-1497 | no H.264 asks nothing of the library; distinct payload types ask that its answer be stable; otherwise matching must be symmetric and transitive |
| `Pipe.DistinctPtsUnambiguous` | mediasoup-3.12.16/node/src/ortc.ts:857-877 | distinct payload types are unambiguous |
| `Pipe.RemapIdentity` | mediasoup-3.12.16/node/src/ortc.ts:843-1017 | the whole chain from the router's own capabilities: re-mapping is the identity whenever codecs that share a payload type share their target, with a library that need only be stable |
| `Pipe.DistinctPtsAgree` | mediasoup-3.12.16/node/src/ortc.ts:857-877 | distinct payload types meet that condition |
| `Pipe.RemapAmbiguous` | mediasoup-3.12.16/node/src/ortc.ts:978-984 | a router built from the supported codecs with two VP9 profiles, and a producer with both under one payload type, for which re-mapping is not the identity |
| `Framing.U32RoundTrip` | mediasoup-3.12.16/node/src/Channel.ts:102-105 | a length prefix reads back as the length written, in either byte order |
| `Framing.U32Order` | mediasoup-3.12.16/node/src/Channel.ts:102-105 | which byte is the lowest, in either byte order |
| `Framing.SplitAppend` | mediasoup-3.12.16/node/src/Channel.ts:66-166 | splitting a longer stream is splitting the shorter one and going on from its tail |
| `Framing.SplitConserves` | mediasoup-3.12.16/node/src/Channel.ts:162-165 | frames and tail account for every byte of the stream |
| `Framing.SplitOfWire` | mediasoup-3.12.16/node/src/Channel.ts:249-251 | splitting what was framed gives the frames back and nothing else |
| `Framing.ChunkIndependence` | mediasoup-3.12.16/node/src/Channel.ts:66-166 | however a stream is cut, what is delivered and carried is the split of the whole stream if and only if the buffer never exceeds its limit |
| `Framing.LimitIs` | mediasoup-3.12.16/node/src/Channel.ts:79-88 | the limit in bytes: up to 4194304 in all never overflow, and a single chunk overflows if and only if it makes more |
| `Framing.DeliveredBounded` | mediasoup-3.12.16/node/src/Channel.ts:79-88 | no payload over the limit less four bytes is ever delivered, although longer ones may be sent |
| `Framing.TooLongOverflows` | mediasoup-3.12.16/node/src/Channel.ts:79-88 | any longer frame of the stream, or a longer tail, overflows under every cut |
| `Framing.FramesArrive` | mediasoup-3.12.16/node/src/PayloadChannel.ts:67-124 | frames arrive as they were sent if and only if the buffer never exceeds its limit |
| `Requests.SameIdIff` | mediasoup-3.12.16/node/src/Channel.ts:230-232 | two requests have the same id if and only if they are a multiple of 4294967295 requests apart |
| `Requests.ConsecutiveIdsDistinct` | mediasoup-3.12.16/node/src/Channel.ts:230-232 | ids lie in 1..4294967295 and that many consecutive ones are distinct |
| `Requests.StepValid` | mediasoup-3.12.16/node/src/Channel.ts:228-350 | every step keeps the table consistent: ids follow the count, entries belong to handed-out promises, and are unsettled while open |
| `Requests.RunValid` | mediasoup-3.12.16/node/src/Channel.ts:228-350 | and so does every run |
| `Requests.StepTracks` | mediasoup-3.12.16/node/src/Channel.ts:253-285 | a step keeps all pending requests in the table if and only if it is not a request that finds its id there |
| `Requests.RequestTracks` | mediasoup-3.12.16/node/src/Channel.ts:253-285 | a new request keeps all pending ones reachable if and only if its id is not in the table, that is if no pending one is a multiple of the id range older |
| `Requests.RunTracks` | mediasoup-3.12.16/node/src/Channel.ts:228-350 | over every run, all pending requests are in the table at the end if and only if no request ever found its id there: what is lost stays lost |
| `Requests.IdTakenOver` | mediasoup-3.12.16/node/src/Channel.ts:230-232 | 4294967296 requests without a response lose the first |
| `Requests.RunTracked` | mediasoup-3.12.16/node/src/Channel.ts:228-350 | over every run that stays within the id range, every pending request is in the table under its own id |
| `Requests.ResponseSettlesItsRequest` | mediasoup-3.12.16/node/src/Channel.ts:290-332 | in a run where no id is taken over, a response settles the request that was sent with its id, and no other |
| `Requests.SettledForGood` | mediasoup-3.12.16/node/src/Channel.ts:259-280 | a settled promise never changes again, close included |
| `Requests.CloseSettlesAll` | mediasoup-3.12.16/node/src/Channel.ts:188-203 | closing a channel settles every promise if and only if no id was taken over, and as closed; closing a payload channel settles none |
| `Requests.RejectedAtOnce` | mediasoup-3.12.16/node/src/Channel.ts:228-251 | a request on a closed channel, or one that cannot be sent, throws and leaves the table and all other promises alone |
| `Requests.AfterCloseAllThrow` | mediasoup-3.12.16/node/src/Channel.ts:236-239 | over every run, every request made after a close of either kind throws and nothing else |
| `Channel.Channel.SendRequest` | mediasoup-3.12.16/node/src/Channel.ts:228-286 | one request step of the table; buffer untouched |
| `Channel.Channel.Shut` | mediasoup-3.12.16/node/src/Channel.ts:188-203 | the loop over the pending entries is one close step, and a second close does nothing |
| `Channel.Channel.ProcessReply` | mediasoup-3.12.16/node/src/Channel.ts:288-332 | one response step of the table, unknown ids and undecided responses included |
| `Channel.Channel.OnData` | mediasoup-3.12.16/node/src/Channel.ts:66-166 | the scanning loop delivers the frames of carried and new bytes, keeps the tail, and takes one step per response |
| `Channel.Channel.OnDataEvents` | mediasoup-3.12.16/node/src/Channel.ts:66-166 | the same over any sequence of chunks, so that the laws of framing and requests apply to it; and every pending request is settled by the first frame that answers it |
| `Channel.FramesAnswered` | mediasoup-3.12.16/node/src/Channel.ts:107-158 | for any list of frames: every pending request is settled by the first frame that answers its id, with that verdict, and no other promise changes |
| `Channel.AnswerSettles` | mediasoup-3.12.16/node/src/Channel.ts:288-332 | after every run without a taken id: a frame that answers a pending request settles it and no other; a frame that answers none changes no promise |
| `PayloadChannel.PairsUp` | mediasoup-3.12.16/node/src/PayloadChannel.ts:308-401 | a sequence of responses and notification-payload pairs is processed to the responses in order and each payload with its own notification |
| `PayloadChannel.PairedIff` | mediasoup-3.12.16/node/src/PayloadChannel.ts:308-401 | what is emitted is, both ways, a notification with the payload sent with it, and what is dispatched a reply with an id that was sent by itself |
| `PayloadChannel.NotificationPairing` | mediasoup-3.12.16/node/src/PayloadChannel.ts:67-124 | under every chunking the frames arrive as sent if and only if the buffer never overflows, and then each payload goes with its notification; no payload is parsed as a message |
| `PayloadChannel.OverflowMispairs` | mediasoup-3.12.16/node/src/PayloadChannel.ts:80-88 | for every notification whose payload overflows the buffer, the reply that follows is emitted as its payload and never dispatched |
| `PayloadChannel.PayloadChannel.ProcessData` | mediasoup-3.12.16/node/src/PayloadChannel.ts:308-401 | one step of the pairing, by the field of the ongoing notification, whose data goes with the payload |
| `PayloadChannel.PayloadChannel.OnData` | mediasoup-3.12.16/node/src/PayloadChannel.ts:67-124 | the frames of carried and new bytes are processed in order, and the tail is kept |
| `PayloadChannel.PayloadChannel.OnDataEvents` | mediasoup-3.12.16/node/src/PayloadChannel.ts:67-124 | the same over any sequence of chunks, so that the pairing applies to the channel |
| `WorkerDecoder.EncodeIsFrame` | common_util/gen_util.go:36-42 | encoding is the length-prefixed frame, for lengths that fit 32 bits |
| `WorkerDecoder.Decoder.ReadLength` | common_util/gen_util.go:137-152 | on success a length in range, followed by an opening brace if by anything; on an error nothing more can be delivered |
| `WorkerDecoder.Decoder.ReadData` | common_util/gen_util.go:115-136 | fails if and only if the payload is not complete; otherwise stops at its last byte |
| `WorkerDecoder.Decoder.ReadEnd` | common_util/gen_util.go:104-114 | delivers if and only if the last byte is a closing brace, and resets either way |
| `WorkerDecoder.Decoder.Parse` | common_util/gen_util.go:93-103 | every step keeps delivered plus still expected messages, and either advances or lowers the state: termination |
| `WorkerDecoder.Decoder.Feed` | common_util/gen_util.go:75-91 | terminates on every input, delivers the messages of the reference definition, and leaves the decoder reset |
| `WorkerDecoder.Decoder.FeedAll` | worker/worker.go:84-104 | the read loop delivers, read by read, what each read holds |
| `WorkerDecoder.OnlyMessages` | common_util/gen_util.go:104-152 | whatever is delivered starts with an opening and ends with a closing brace and is within the size limit |
| `WorkerDecoder.MessagesOfWire` | common_util/gen_util.go:36-152 | of a concatenation of encoded messages exactly these are delivered, in order |
| `WorkerDecoder.MessagesOfFrames` | common_util/gen_util.go:75-152 | of frames that open with a brace exactly those that close with one are delivered, and the read goes on behind them |
| `WorkerDecoder.StrayFrameEndsRead` | common_util/gen_util.go:137-152 | a frame that does not open with a brace ends the read: everything behind it is lost |
| `WorkerDecoder.MessagesConserve` | common_util/gen_util.go:75-152 | delivered messages never take more bytes than were read, and as many only if the input was exactly their encoding |
| `WorkerDecoder.DeliveredIff` | worker/worker.go:84-104 | a stream of messages is delivered unharmed if and only if every cut falls on a message boundary, that is if every read is the encoding of whole messages |
| `WorkerDecoder.StraddlingRead` | worker/worker.go:94-103 | any message cut anywhere into two reads is not among what is delivered |
| `WorkerDecoder.LongestDelivered` | worker/worker.go:94-103 | a read has at most 4194304 bytes, so no payload over 4194300 is ever delivered, although the decoder accepts four sizes more |
| `SctpStreams.NextFreeFirst` | mediasoup-3.12.16/node/src/Transport.ts:1050-1064 | the scan returns the first free id in cyclic order from the cursor, and none if and only if all are marked |
| `SctpStreams.ScanGoesUp` | mediasoup-3.12.16/node/src/Transport.ts:1050-1064 | in plain numbers: all ids from the cursor up to the one found are marked, through the last and from 0 if it lies below |
| `SctpStreams.HoldersFill` | mediasoup-3.12.16/node/src/Transport.ts:1043-1048 | distinct holders never outnumber the streams, and match them if and only if every id is held |
| `SctpStreams.Transport.GetNextSctpStreamId` | mediasoup-3.12.16/node/src/Transport.ts:1033-1065 | the loop over the buffer computes that id and moves the cursor behind it; the buffer is allocated on first use |
| `SctpStreams.Transport.BeginConsumeData` | mediasoup-3.12.16/node/src/Transport.ts:944-948 | the id is marked for a new pending request; fails for lack of ids if and only if pending, live and lost ids are as many as the streams |
| `SctpStreams.Transport.Accept` | mediasoup-3.12.16/node/src/Transport.ts:978-994 | the data consumer takes over the id of its request |
| `SctpStreams.Transport.Reject` | mediasoup-3.12.16/node/src/Transport.ts:978-979 | the id of a rejected request is lost for good |
| `SctpStreams.Transport.Release` | mediasoup-3.12.16/node/src/Transport.ts:994-1012 | closing a data consumer, for the first time, frees exactly its id |
| `SctpStreams.Transport.FullIff` | mediasoup-3.12.16/node/src/Transport.ts:1050-1064 | in every reachable state no id is free if and only if the holders add up to the number of streams |
| `SctpStreams.Transport.LiveIdsDistinct` | mediasoup-3.12.16/node/src/Transport.ts:944-1012 | in every reachable state a live data consumer has a marked id below the number of streams, and two share an id if and only if they are one |
| `SctpStreams.RejectAll` | mediasoup-3.12.16/node/src/Transport.ts:944-979 | as many rejected requests as there are streams leave none, with no data consumer in existence |
| `NtpTime.FractionTolerance` | mediasoup-3.12.16/worker/include/Utils.hpp:344-353 | the millisecond is recovered from any fraction within 2147483 units of the exact one, so rounding of doubles cannot matter |
| `NtpTime.NtpRoundTrip` | mediasoup-3.12.16/worker/include/Utils.hpp:332-353 | there and back is the identity if and only if the seconds fit 32 bits, and otherwise loses exactly the overflow |
| `NtpTime.FractionIsFloor` | mediasoup-3.12.16/worker/include/Utils.hpp:332-341 | the fraction is the largest number of 2^-32 seconds that does not exceed the milliseconds |
| `NtpTime.NearestMillisecond` | mediasoup-3.12.16/worker/include/Utils.hpp:343-351 | every NTP time is read as the nearest millisecond |
| `NtpTime.ExactlyOneNewer` | mediasoup-3.12.16/worker/include/Utils.hpp:355-371 | of two distinct timestamps exactly one is newer, and the latest does not depend on their order, at distance 2^31 too |
| `NtpTime.NewerIsAhead` | mediasoup-3.12.16/worker/include/Utils.hpp:355-371 | which one: a timestamp less than 2^31 ahead, wrap-around included, is newer and the latest; more than 2^31 ahead it is older; at 2^31 the larger number is the latest |
| `NtpTime.ShiftKeepsOrder` | mediasoup-3.12.16/worker/include/Utils.hpp:355-366 | the order survives wrap-around of both timestamps if and only if they are not 2^31 apart |
| `Fingerprint.ParseAsBytes` | mediasoup-3.12.16/rust/src/data_structures.rs:375-387 | succeeds if and only if every pair at offset 3i is a byte, and then writes exactly these bytes |
| `Fingerprint.Deserialize` | mediasoup-3.12.16/rust/src/data_structures.rs:375-485 | which of the three errors, each if and only if, or the parsed bytes of the right length |
| `Fingerprint.PrintedAt` | mediasoup-3.12.16/rust/src/data_structures.rs:500-736 | the printed form has 3n - 1 characters, two upper-case hex digits per byte at 3i, colons between |
| `Fingerprint.PrintedDigits` | mediasoup-3.12.16/rust/src/data_structures.rs:500-736 | which digits: character by character against 0 to F |
| `Fingerprint.ParsePrint` | mediasoup-3.12.16/rust/src/data_structures.rs:500-736 | printed bytes parse to these bytes and no others |
| `Fingerprint.PairRead` | mediasoup-3.12.16/rust/src/data_structures.rs:375-387 | which pairs are read as a byte: its two digits in either case, or a plus sign and its one digit |
| `Fingerprint.PrintParsed` | mediasoup-3.12.16/rust/src/data_structures.rs:375-485 | parsed bytes print to the input if and only if the input is canonical |
| `Fingerprint.LowerCaseLost` | mediasoup-3.12.16/rust/src/data_structures.rs:375-387 | for every algorithm, any fingerprint that starts with a letter is accepted with that letter in lower case, as the same bytes, which print differently |
| `Fingerprint.NameRoundTrip` | mediasoup-3.12.16/rust/src/data_structures.rs:738-746 | the five algorithm names read back, each with the size of its digest |
| `BundleMids.GenerateMids` | common_util/down_offer.go:22-88 | the loops produce the mids per remote user and the list 0..total-1 |
| `BundleMids.MidsAgree` | common_util/down_offer.go:39-88 | mids in m-line order equal the BUNDLE list if and only if all users have pairs, up to a last one with a single audio consumer and users with none |
| `BundleMids.BundleMatches` | common_util/down_offer.go:22-88 | for any number of pairs the mids are 0..2n-1, each once, as in the BUNDLE list |
| `BundleMids.UntidyMids` | common_util/down_offer.go:39-88 | a remote user with audio only, ranged over before any other, breaks the numbering |
| `DownOffer.MirrorIsPair` | worker/worker.go:512-517 | the consumers that mirror a user's two producers are a pair in whatever order they are ranged over |
| `DownOffer.MeshedOffer` | common_util/down_offer.go:22-88 | the offer to a meshed user has two sections per other user with mids that the BUNDLE group lists, whatever the orders |
| `WorkerTrace.EveryCommandAllowed` | worker/worker.go:393-932 | a trace is clean if and only if every command meets a worker where what it names is open and what it creates is new |
| `WorkerTrace.OpenIsKnown` | mediasoup-3.12.16/node/src/Router.ts:266-287 | in a clean run every open transport was created and belongs to an open router |
| `WorkerTrace.OpenIff` | worker/worker.go:393-932 | in a clean run a transport is open in a room if and only if some command created it there and neither it nor the router of the room was closed since |
| `WorkerTrace.NamedIsOpen` | worker/worker.go:393-932 | in a clean run every command that produces or closes names a transport that is open at that moment; only the empty id is closed for nothing |
| `WorkerTrace.ClosedAtMostOnce` | worker/worker.go:588-610 | in a clean run every transport is closed at most once, and not while it is still open or before it was created |
| `RoomMedia.Producer.Plain` | common_util/up_offer.go:52-267 | audio and plain video producers: payload types and encoding as offered, one mapped ssrc |
| `RoomMedia.Producer.Layered` | common_util/up_offer.go:399-550 | simulcast producers: three named layers with consecutive mapped ssrcs |
| `RoomMedia.Producer.RenewSsrcs` | worker/worker.go:672-680 | new ssrcs in place, the RTX ssrc following unless it is absent or 0 |
| `RoomMedia.Producer.RewriteCodecs` | worker/worker.go:683-703 | payload types and apt rewritten in place, entry by entry |
| `RoomMedia.Producer.MakeConsumer` | worker/worker.go:652-831 | whatever earlier refreshes rewrote, the consumer has payload type 100, or 101 and 102 with apt 101, one encoding whose RTX ssrc follows its own unless the producer had none, and consumes the ssrcs mapped when the producer was made; the producer can be consumed again |
| `Rooms.Server.CloseConsumers` | worker/worker.go:588-600 | one close command per consumer, as often as the id occurs, in some order, and nothing else |
| `Rooms.Server.ConsumeFrom` | worker/worker.go:649-832 | one consumer per producer of the other user, each as it should be |
| `Rooms.Server.ReplaceTransport` | worker/worker.go:588-631 | all consumers are closed, then their transport if there is one, and a new one is created; nothing leaks |
| `RoomCommands.ReplacementMeans` | worker/worker.go:588-631 | the commands of that: every consumer is closed, nothing else before the old transport, then the new one last |
| `Rooms.Server.RefreshUser` | worker/worker.go:576-832 | the user ends up with consumers for exactly the other users |
| `Rooms.Server.Refresh` | worker/worker.go:561-853 | all users of a room with at least two are renewed, in any order, transports of others stay, and a smaller room is left alone |
| `Rooms.Server.RefreshOnly` | worker/worker.go:561-853 | afterwards a room is meshed if and only if it was, or it is this one and has two users |
| `Rooms.Server.Join` | worker/worker.go:393-559 | afterwards the room is meshed, the user has the producers of its offer, and the leaked transports are the earlier ones and those of the predecessor under the same id, if any |
| `Rooms.Server.MakeUser` | worker/worker.go:508-517 | an audio and a video producer with the mapped ssrcs that the offer fixes |
| `Rooms.Server.Remove` | worker/worker.go:864-909 | a user's producers, transport, consumers and consumer transport are closed in this order, and no other transport |
| `RoomCommands.FarewellMeans` | worker/worker.go:864-909 | the commands of that: every producer, both transports and every consumer are closed, the consumer transport last |
| `Rooms.Server.LeaveRoom` | worker/worker.go:857-925 | a room keeps exactly the users of other connections, everything the others had is closed by command, and the room is closed if nobody is left |
| `Rooms.Server.Depart` | worker/worker.go:857-926 | the same for all rooms; a transport stays open if and only if its room does and its owner did not leave |
| `Rooms.Server.Leave` | worker/worker.go:855-932 | everything the departed had is closed by command; leaked transports last until their room closes; everybody stays covered, and a room is meshed if and only if it was and lost nobody, or is the last one ranged over and has two users |
| `Rooms.Server.Conservation` | worker/worker.go:457-480 | in every reachable state the open transports are the ones recorded on users in rooms and the leaked ones, and these are disjoint |
| `RoomMaps.LeftIsStale` | worker/worker.go:909-931 | a covered room that lost some but not all users stays covered and is not meshed any more |
| `RoomRuns.Serve` | worker/worker.go:393-932 | after every possible run of joins and departures the server agrees with a book that only notes names, connections and offers: the users, the rooms with leaked transports (those where an id was reused), and the rooms that are not meshed |
| `RoomHistory.PresentIff` | worker/worker.go:393-932 | the book, read off the visits: after every run a user is in a room if and only if it came there, and since then neither its connection went nor its id was taken over |
| `RoomHistory.ReusedIff` | worker/worker.go:450-456 | a room is one with leaked transports if and only if an id was taken over in it and it was never empty since |
| `RoomHistory.StaleIff` | worker/worker.go:909-931 | a room is stale if and only if it lost somebody but not everybody, and neither then nor later was it emptied or refreshed |
| `RoomRuns.Come` | worker/worker.go:393-559 | a join keeps the agreement |
| `RoomRuns.Go` | worker/worker.go:855-932 | a departure keeps the agreement |
| `RoomRuns.ConsumedAsOffered` | worker/worker.go:661-740 | in every state a run can reach, a consumer of a user consumes exactly the ssrcs that the user's offer maps to, with payload type 100, or 101 and 102 with apt 101 |
| `RoomRuns.NothingLeaks` | worker/worker.go:393-932 | after every run in which no id was reused in a room that is still there, the open transports of the worker are exactly those recorded on users in rooms |
| `RoomRuns.OfferConsistent` | common_util/down_offer.go:22-88 | after every run, the offer to each user of a room that is not stale has two sections per other user with mids that the BUNDLE group lists |
| `RoomRuns.ReusedId` | worker/worker.go:450-456 | any user who joins twice: the run is possible, and the book has the room as one with a reused id |
| `RoomRuns.ReusedIdLeaks` | worker/worker.go:450-480 | and the server then has a leaked transport |
| `RoomRuns.StaleRoom` | worker/worker.go:927-931 | three users in one room and one in another: the run is possible, and the book has the first room, with two users left, as stale |
| `RoomRuns.StaleRoomNotMeshed` | worker/worker.go:909-931 | and on the server that room is covered but not meshed |

## Left out

- Codecs: case folding is ASCII only, and numbers in codec parameters are integers.
- ORTC: the `validate*` checks (their normalised result is the input), the encoding part of the producer mapping, and how header extensions, encodings and rtcp of consumable and pipe parameters are made.
- ORTC: a codec object that occurs twice in one list (the source's map is keyed by object identity; the model keys by position).
- ConsumerParameters.MakeEncodings: rid and codec payload type of encodings, which consumable ones do not have; ssrcs are not cut to 32 bits, as in the source.
- Pipe.RemapIdentityExact: for an H.264 payload type that is shared by two codecs the library's matching is assumed to be symmetric and transitive; the library itself is not modelled.
- Channel.Channel.OnData: notifications and log frames change no request, and whom they are passed on to is not modelled.
- Channels: JSON text is an arbitrary function from payloads to messages; listeners that throw, log lines, failed socket writes and timers.
- PayloadChannel.PayloadChannel.ProcessData: the frame `null` parses as JSON and then makes the handler throw, so that the frames before it stay in the buffer; the model takes it as a message of no kind and ignores it.
- PayloadChannel: `request` and `notify`; its requests are those of `Requests`, whose quiet close is its close.
- WorkerDecoder: the channel of results is unbounded and never blocks; the panic on a short read ends in the same reset as the error beside it.
- SctpStreams: data consumers of transports without SCTP, which have no stream id.
- NtpTime: double arithmetic is exact; `NtpTime.FractionTolerance` bounds what rounding may do.
- Fingerprint: strings are sequences of one-byte characters, so slices never split a character.
- Rooms: handlers run one after another; generated ids are fresh; writes to the worker and the browser succeed. Observer, bitrate, trace, connect, consume and resume commands are not in the trace.
- Rooms: the pipe test paths and pass-through signals.
- RoomMedia: header extensions, feedback, cname and bitrates of producers and consumers.
- BundleMids: all other lines of the offer, and the mid stored back into a consumer.
- C++ worker internals, the Rust wrappers, WebRtcServer and pipe transport close cascades.
