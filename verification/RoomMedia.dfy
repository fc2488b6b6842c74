/** Producers of a room's users, and the consumers derived from them by rewriting the producers in place. */
module RoomMedia {
  import opened Wrappers
  import opened BundleMids

  const SSRC_RANGE := 0x1_0000_0000

  datatype MediaCodec = MediaCodec(payloadType: int, apt: Option<int>)

  /** rtx is the map of an encoding: nil, or holding an ssrc. */
  datatype MediaEncoding = MediaEncoding(ssrc: nat, rid: string, rtx: Option<nat>)

  /** A consumer holds deep copies, and the mapped ssrcs it may consume. */
  datatype Consumer = Consumer(producerId: nat, kind: Kind, simulcast: bool, codecs: seq<MediaCodec>,
                               encodings: seq<MediaEncoding>, consumableSsrcs: seq<nat>)

  /** The video of an upstream offer, by its ssrcs; those of the layers are made up by the server. */
  datatype VideoOffer = Single(ssrc: nat, rtxSsrc: nat) | Layers(ssrc: nat)

  /** What an upstream offer fixes. */
  datatype Offer = Offer(audio: nat, video: VideoOffer) {
    predicate InRange() {
      audio < SSRC_RANGE && video.ssrc < SSRC_RANGE && (video.Single? ==> video.rtxSsrc < SSRC_RANGE)
    }

    /** The mapped ssrcs of the producers made from it. */
    ghost function Mapped(kind: Kind): seq<nat> {
      if kind == Audio then [(audio + 1) % SSRC_RANGE]
      else if video.Single? then [(video.ssrc + 1) % SSRC_RANGE]
      else [video.ssrc, (video.ssrc + 1) % SSRC_RANGE, (video.ssrc + 2) % SSRC_RANGE]
    }

    ghost predicate HasLayers(kind: Kind) {
      kind == Video && video.Layers?
    }
  }

  /** The RTX ssrc follows the encoding's own. */
  predicate NextSsrc(e: MediaEncoding) {
    e.rtx == Some((e.ssrc + 1) % SSRC_RANGE)
  }

  /** The payload types every consumer of the kind must have. */
  function ConsumedCodecs(kind: Kind): seq<MediaCodec> {
    match kind
    case Audio => [MediaCodec(100, None)]
    case Video => [MediaCodec(101, None), MediaCodec(102, Some(101))]
  }

  /** The payload types a producer is created with. */
  function OfferedCodecs(kind: Kind): seq<MediaCodec> {
    match kind
    case Audio => [MediaCodec(111, None)]
    case Video => [MediaCodec(96, None), MediaCodec(97, Some(96))]
  }

  /** The rewrite of a video codec: it changes 96 and 97, and any apt. */
  function RewriteVideo(c: MediaCodec): MediaCodec {
    MediaCodec(if c.payloadType == 96 then 101 else if c.payloadType == 97 then 102 else c.payloadType,
          if c.apt.Some? then Some(101) else None)
  }

  function RewriteAudio(c: MediaCodec): MediaCodec {
    c.(payloadType := 100)
  }

  /** A producer; its lists stand for the backing arrays and maps that every copy of the Go value shares. */
  class Producer {
    const kind: Kind
    ghost const layered: bool   // simulcast, as offered
    var codecs: seq<MediaCodec>
    var encodings: seq<MediaEncoding>
    var mapped: seq<nat>

    /** getAudioOpusParam and getVideoVP8Param. */
    constructor Plain(kind: Kind, ssrc: nat, rtxSsrc: nat)
      requires ssrc < SSRC_RANGE && rtxSsrc < SSRC_RANGE
      ensures Good() && !layered && this.kind == kind && mapped == [(ssrc + 1) % SSRC_RANGE]
      ensures codecs == if kind == Audio then [MediaCodec(111, None)]
                        else [MediaCodec(96, None), MediaCodec(97, Some(96))]
      ensures encodings == [MediaEncoding(ssrc, "", if kind == Video then Some(rtxSsrc) else None)]
    {
      this.kind, layered, codecs := kind, false, OfferedCodecs(kind);
      encodings := [MediaEncoding(ssrc, "", if kind == Video then Some(rtxSsrc) else None)];
      mapped := [(ssrc + 1) % SSRC_RANGE];
    }

    /** getSimulcastVideoVP8Param. */
    constructor Layered(ssrc: nat)
      requires ssrc < SSRC_RANGE
      ensures Good() && layered && kind == Video && mapped == [ssrc, (ssrc + 1) % SSRC_RANGE, (ssrc + 2) % SSRC_RANGE]
      ensures codecs == [MediaCodec(96, None), MediaCodec(97, Some(96))]
      ensures encodings == [MediaEncoding(0, "r0", None), MediaEncoding(0, "r1", None), MediaEncoding(0, "r2", None)]
    {
      kind, layered, codecs := Video, true, OfferedCodecs(Video);
      encodings := [MediaEncoding(0, "r0", None), MediaEncoding(0, "r1", None), MediaEncoding(0, "r2", None)];
      mapped := [ssrc, (ssrc + 1) % SSRC_RANGE, (ssrc + 2) % SSRC_RANGE];
      new;
      assert encodings[0].rid != "";
    }

    ghost predicate Simulcast()
      reads this
    {
      exists i :: 0 <= i < |encodings| && encodings[i].rid != ""
    }

    /** The codecs are as offered or as rewritten, and layers have their mapped ssrcs. */
    ghost predicate Good()
      reads this
    {
      && (codecs == OfferedCodecs(kind) || codecs == ConsumedCodecs(kind))
      && |mapped| >= 1 && |encodings| == |mapped|
      && (Simulcast() <==> layered) && (layered ==> kind == Video)
      && (!layered ==> |mapped| == 1 && (encodings[0].rtx.Some? <==> kind == Video))
    }

    /** The ssrcs a consumer of this producer may consume. */
    ghost function Consumable(): seq<nat>
      requires |mapped| >= 1
      reads this`mapped
    {
      if layered then mapped else mapped[..1]
    }

    /** What a consumer of this producer must look like; it depends on nothing that a refresh rewrites. */
    ghost predicate Fits(c: Consumer)
      reads this`mapped
    {
      && |mapped| >= 1 && c.kind == kind && c.simulcast == layered
      && c.codecs == ConsumedCodecs(kind) && c.consumableSsrcs == Consumable()
      && |c.encodings| == 1 && FitsEncoding(c.encodings[0])
    }

    /** One stream without layers. Video has an RTX ssrc next to its own, or 0 if the producer had none to renew. */
    ghost predicate FitsEncoding(e: MediaEncoding) {
      && e.ssrc < SSRC_RANGE && e.rid == "" && (e.rtx.Some? <==> kind == Video)
      && (e.rtx.Some? ==> NextSsrc(e) || (!layered && e.rtx.value == 0))
    }

    method IsSimulcast() returns (r: bool)
      ensures r <==> Simulcast()
    {
      r := false;
      for i := 0 to |encodings|
        invariant r <==> exists j :: 0 <= j < i && encodings[j].rid != ""
      {
        if encodings[i].rid != "" {
          r := true;
        }
      }
    }

    /** New ssrcs for the encodings, in place; an RTX ssrc that is not 0 follows its encoding's. */
    method RenewSsrcs()
      modifies this`encodings
      ensures |encodings| == |old(encodings)|
      ensures forall i :: 0 <= i < |encodings| ==>
        && encodings[i].rid == old(encodings)[i].rid && encodings[i].ssrc < SSRC_RANGE
        && encodings[i].rtx == (if old(encodings)[i].rtx.Some? && old(encodings)[i].rtx.value != 0
                                then Some((encodings[i].ssrc + 1) % SSRC_RANGE) else old(encodings)[i].rtx)
    {
      for n := 0 to |encodings|
        invariant |encodings| == |old(encodings)|
        invariant forall i :: 0 <= i < n ==>
          && encodings[i].rid == old(encodings)[i].rid && encodings[i].ssrc < SSRC_RANGE
          && encodings[i].rtx == (if old(encodings)[i].rtx.Some? && old(encodings)[i].rtx.value != 0
                                  then Some((encodings[i].ssrc + 1) % SSRC_RANGE) else old(encodings)[i].rtx)
        invariant forall i :: n <= i < |encodings| ==> encodings[i] == old(encodings)[i]
      {
        var ssrc: nat :| ssrc < SSRC_RANGE;
        var e := encodings[n];
        var rtx := if e.rtx.Some? && e.rtx.value != 0 then Some((ssrc + 1) % SSRC_RANGE) else e.rtx;
        encodings := encodings[n := MediaEncoding(ssrc, e.rid, rtx)];
      }
    }

    /** The payload types and apt of the codecs, in place. */
    method RewriteCodecs(audio: bool)
      modifies this`codecs
      ensures |codecs| == |old(codecs)|
      ensures forall i :: 0 <= i < |codecs| ==>
        codecs[i] == if audio then RewriteAudio(old(codecs)[i]) else RewriteVideo(old(codecs)[i])
    {
      for n := 0 to |codecs|
        invariant |codecs| == |old(codecs)|
        invariant forall i :: 0 <= i < n ==>
          codecs[i] == if audio then RewriteAudio(old(codecs)[i]) else RewriteVideo(old(codecs)[i])
        invariant forall i :: n <= i < |codecs| ==> codecs[i] == old(codecs)[i]
      {
        codecs := codecs[n := if audio then RewriteAudio(codecs[n]) else RewriteVideo(codecs[n])];
      }
    }

    /** A new consumer of the producer. The producer stays good. */
    method MakeConsumer(producerId: nat) returns (c: Consumer)
      requires Good()
      modifies this`codecs, this`encodings
      ensures Good() && codecs == ConsumedCodecs(kind)
      ensures Fits(c) && c.producerId == producerId
      ensures layered ==> encodings == old(encodings) && NextSsrc(c.encodings[0])
      ensures !layered ==> c.encodings == encodings
      ensures !layered && kind == Video ==> c.encodings[0].rtx == Some(0) || NextSsrc(c.encodings[0])
    {
      var simulcast := IsSimulcast();
      if !simulcast {
        assert encodings[0].rid == "";
        RenewSsrcs();
        assert !Simulcast();
        RewriteCodecs(kind == Audio);
        assert codecs == ConsumedCodecs(kind);
        c := Consumer(producerId, kind, false, codecs, encodings, mapped[..1]);
      } else {
        var consumable: seq<nat> := [];
        for i := 0 to |mapped|
          invariant consumable == mapped[..i]
        {
          consumable := consumable + [mapped[i]];
        }
        var ssrc: nat :| ssrc < SSRC_RANGE;
        RewriteCodecs(false);
        assert codecs == ConsumedCodecs(kind);
        var encoding := MediaEncoding(ssrc, "", Some((ssrc + 1) % SSRC_RANGE));
        c := Consumer(producerId, kind, true, codecs, [encoding], consumable);
      }
    }
  }
}
