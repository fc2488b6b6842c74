/** getPipeConsumerRtpParameters, and what a second router with the same codecs makes of its result. */
module Pipe {
  import opened Wrappers
  import opened Codecs
  import opened RouterCapabilities
  import opened SupportedCodecs
  import opened ProducerMapping
  import opened Consumable
  import opened RtxSanitizing
  import opened Consumer
  import opened SampleCodecs

  /** The RTCP feedback a pipe keeps: PLI, FIR and, with RTX, plain nack. */
  predicate PipeKeeps(fb: Feedback, enableRtx: bool) {
    fb == Feedback("nack", "pli") || fb == Feedback("ccm", "fir") || (enableRtx && fb == Feedback("nack", ""))
  }

  function PipeFeedback(fbs: seq<Feedback>, enableRtx: bool): (r: seq<Feedback>)
    ensures forall fb :: fb in r <==> fb in fbs && PipeKeeps(fb, enableRtx)
  {
    if fbs == [] then []
    else if PipeKeeps(fbs[0], enableRtx) then [fbs[0]] + PipeFeedback(fbs[1..], enableRtx)
    else PipeFeedback(fbs[1..], enableRtx)
  }

  /** Specification of the pipe codecs made from the first n consumable codecs. */
  ghost function PipeCodecs(enableRtx: bool, codecs: seq<Codec>, n: nat): seq<Codec>
    requires n <= |codecs|
  {
    if n == 0 then []
    else if !enableRtx && IsRtx(codecs[n - 1].format) then PipeCodecs(enableRtx, codecs, n - 1)
    else
      PipeCodecs(enableRtx, codecs, n - 1) +
      [codecs[n - 1].(rtcpFeedback := PipeFeedback(codecs[n - 1].rtcpFeedback, enableRtx))]
  }

  method GetPipeConsumerCodecs(enableRtx: bool, codecs: seq<Codec>) returns (r: seq<Codec>)
    ensures r == PipeCodecs(enableRtx, codecs, |codecs|)
  {
    r := [];
    for n := 0 to |codecs|
      invariant r == PipeCodecs(enableRtx, codecs, n)
    {
      if !enableRtx && IsRtx(codecs[n].format) {
        continue;
      }
      r := r + [codecs[n].(rtcpFeedback := PipeFeedback(codecs[n].rtcpFeedback, enableRtx))];
    }
  }

  lemma {:induction false} PipeFrom(enableRtx: bool, codecs: seq<Codec>, n: nat, c: Codec) returns (d: Codec)
    requires n <= |codecs| && c in PipeCodecs(enableRtx, codecs, n)
    ensures d in codecs && SameCodec(c, d)
  {
    hide IsRtx;
    if c in PipeCodecs(enableRtx, codecs, n - 1) {
      d := PipeFrom(enableRtx, codecs, n - 1, c);
    } else {
      d := codecs[n - 1];
    }
  }

  lemma {:induction false} PipeHas(enableRtx: bool, codecs: seq<Codec>, n: nat, i: nat) returns (c: Codec)
    requires i < n <= |codecs| && !IsRtx(codecs[i].format)
    ensures c in PipeCodecs(enableRtx, codecs, n) && SameCodec(c, codecs[i])
  {
    hide IsRtx;
    if i == n - 1 {
      c := codecs[i].(rtcpFeedback := PipeFeedback(codecs[i].rtcpFeedback, enableRtx));
    } else {
      c := PipeHas(enableRtx, codecs, n - 1, i);
    }
  }

  /** With RTX a pipe carries every codec; without, every media codec and no RTX codec, in order. */
  lemma {:induction false} PipeCarries(codecs: seq<Codec>, n: nat)
    requires n <= |codecs|
    ensures var r := PipeCodecs(true, codecs, n); |r| == n && forall i :: 0 <= i < n ==> SameCodec(r[i], codecs[i])
    ensures var r, media := PipeCodecs(false, codecs, n), MediaAmong(codecs, n);
            |r| == |media| && forall i :: 0 <= i < |r| ==> SameCodec(r[i], media[i]) && !IsRtx(r[i].format)
  {
    hide IsRtx;
    if n > 0 {
      PipeCarries(codecs, n - 1);
    }
  }

  /** The media codecs among the first n. */
  ghost function MediaAmong(codecs: seq<Codec>, n: nat): seq<Codec>
    requires n <= |codecs|
  {
    if n == 0 then []
    else if IsRtx(codecs[n - 1].format) then MediaAmong(codecs, n - 1) else MediaAmong(codecs, n - 1) + [codecs[n - 1]]
  }

  /** Key frame requests stay, plain nack stays with RTX, and every bandwidth estimation goes. */
  lemma {:induction false} PipeFeedbackMeans(enableRtx: bool, codecs: seq<Codec>, n: nat, c: Codec) returns (d: Codec)
    requires n <= |codecs| && c in PipeCodecs(enableRtx, codecs, n)
    ensures d in codecs && SameCodec(c, d)
    ensures forall fb :: fb in c.rtcpFeedback <==>
              fb in d.rtcpFeedback && (fb == Feedback("nack", "pli") || fb == Feedback("ccm", "fir") ||
                                       (fb == Feedback("nack", "") && enableRtx))
    ensures forall fb <- c.rtcpFeedback :: fb.typ != "transport-cc" && fb.typ != "goog-remb"
  {
    hide IsRtx;
    assert |"nack"| == 4 && |"ccm"| == 3 && |"transport-cc"| == 12 && |"goog-remb"| == 9;
    if c in PipeCodecs(enableRtx, codecs, n - 1) {
      d := PipeFeedbackMeans(enableRtx, codecs, n - 1, c);
    } else {
      d := codecs[n - 1];
    }
  }

  // ----- Mapping the pipe codecs over the same router codecs -----

  /** The consumable codec made from the media codec at i. */
  ghost function Image(lib: H264, codecs: seq<Codec>, caps: seq<Codec>, i: nat): Codec
    requires MapCodecs(lib, codecs, caps).Ok? && i < |codecs| && !IsRtx(codecs[i].format)
  {
    MediaOf(caps[Home(lib, codecs, caps, i)], Rewritten(lib, codecs[i], caps).format.parameters)
  }

  lemma {:induction false} NegotiatedFrom(lib: H264, codecs: seq<Codec>, caps: seq<Codec>, n: nat, c: Codec)
    returns (i: nat)
    requires MapCodecs(lib, codecs, caps).Ok? && n <= |codecs|
    requires c in Negotiated(lib, codecs, caps, n)
    ensures i < n && !IsRtx(codecs[i].format)
    ensures c == Image(lib, codecs, caps, i) ||
            var k := Home(lib, codecs, caps, i) + 1;
            k < |caps| && IsRtx(caps[k].format) && c == RtxCopy(caps[k])
  {
    hide MapCodecs, Home, Rewritten, IsRtx, MediaOf, RtxCopy;
    if c in Negotiated(lib, codecs, caps, n - 1) {
      i := NegotiatedFrom(lib, codecs, caps, n - 1, c);
    } else {
      i := n - 1;
    }
  }

  lemma {:induction false} NegotiatedHas(lib: H264, codecs: seq<Codec>, caps: seq<Codec>, n: nat, i: nat)
    requires MapCodecs(lib, codecs, caps).Ok? && i < n <= |codecs| && !IsRtx(codecs[i].format)
    ensures Image(lib, codecs, caps, i) in Negotiated(lib, codecs, caps, n)
  {
    hide MapCodecs, Home, Rewritten, IsRtx, MediaOf, RtxCopy;
    if i < n - 1 {
      NegotiatedHas(lib, codecs, caps, n - 1, i);
    } else {
      var block := Placed(caps, Home(lib, codecs, caps, i), Rewritten(lib, codecs[i], caps).format.parameters);
      assert block[0] == Image(lib, codecs, caps, i);
      assert block[0] in block;
    }
  }

  /** In the consumable codecs the image of a codec is followed by its RTX codec, if the router has one for it. */
  lemma {:induction false} NegotiatedPair(lib: H264, codecs: seq<Codec>, caps: seq<Codec>, n: nat, i: nat)
    returns (p: nat)
    requires MapCodecs(lib, codecs, caps).Ok? && i < n <= |codecs| && !IsRtx(codecs[i].format)
    requires var k := Home(lib, codecs, caps, i) + 1; k < |caps| && IsRtx(caps[k].format)
    ensures var all := Negotiated(lib, codecs, caps, n);
            && p + 1 < |all| && all[p] == Image(lib, codecs, caps, i)
            && all[p + 1] == RtxCopy(caps[Home(lib, codecs, caps, i) + 1])
  {
    hide MapCodecs, Home, Rewritten, IsRtx, MediaOf, RtxCopy;
    if i < n - 1 {
      p := NegotiatedPair(lib, codecs, caps, n - 1, i);
    } else {
      p := |Negotiated(lib, codecs, caps, n - 1)|;
    }
  }

  /** Every payload type is mapped to itself. */
  ghost predicate Identity(entries: seq<Entry>) {
    forall a :: 0 <= a < |entries| ==> entries[a].payloadType == entries[a].mappedPayloadType
  }

  /** The pipe codecs of a producer. */
  ghost function Piped(lib: H264, codecs: seq<Codec>, caps: seq<Codec>, enableRtx: bool): seq<Codec>
    requires MapCodecs(lib, codecs, caps).Ok?
  {
    var consumable := Negotiated(lib, codecs, caps, |codecs|);
    PipeCodecs(enableRtx, consumable, |consumable|)
  }

  /** Mapping the pipe codecs again succeeds and is the identity. */
  ghost predicate RemapsToItself(lib: H264, codecs: seq<Codec>, caps: seq<Codec>, enableRtx: bool)
    requires MapCodecs(lib, codecs, caps).Ok?
  {
    var again := MapCodecs(lib, Piped(lib, codecs, caps, enableRtx), caps);
    again.Ok? && Identity(again.value)
  }

  /** Every media codec, as the router re-labels it, still matches first the router codec that stands for it. */
  ghost predicate ImagesMatch(lib: H264, codecs: seq<Codec>, caps: seq<Codec>)
    requires MapCodecs(lib, codecs, caps).Ok?
  {
    forall i :: 0 <= i < |codecs| && !IsRtx(codecs[i].format) ==>
      FirstMatch(lib, Image(lib, codecs, caps, i).format, caps) == Some(Home(lib, codecs, caps, i))
  }

  /** A pipe codec is, up to feedback, an image or a copied RTX codec. */
  lemma PipedFrom(lib: H264, codecs: seq<Codec>, caps: seq<Codec>, enableRtx: bool, c: Codec) returns (i: nat)
    requires MapCodecs(lib, codecs, caps).Ok? && c in Piped(lib, codecs, caps, enableRtx)
    ensures i < |codecs| && !IsRtx(codecs[i].format)
    ensures SameCodec(c, Image(lib, codecs, caps, i)) ||
            var k := Home(lib, codecs, caps, i) + 1;
            k < |caps| && IsRtx(caps[k].format) && SameCodec(c, RtxCopy(caps[k]))
  {
    hide MapCodecs, Home, Rewritten, IsRtx, Negotiated, Image, RtxCopy;
    var consumable := Negotiated(lib, codecs, caps, |codecs|);
    var d := PipeFrom(enableRtx, consumable, |consumable|, c);
    i := NegotiatedFrom(lib, codecs, caps, |codecs|, d);
  }

  lemma PipedHas(lib: H264, codecs: seq<Codec>, caps: seq<Codec>, enableRtx: bool, i: nat) returns (c: Codec)
    requires MapCodecs(lib, codecs, caps).Ok? && i < |codecs| && !IsRtx(codecs[i].format)
    ensures c in Piped(lib, codecs, caps, enableRtx) && SameCodec(c, Image(lib, codecs, caps, i))
  {
    hide MapCodecs, Home, Rewritten, IsRtx, Negotiated;
    var consumable, image := Negotiated(lib, codecs, caps, |codecs|), Image(lib, codecs, caps, i);
    NegotiatedHas(lib, codecs, caps, |codecs|, i);
    var j :| 0 <= j < |consumable| && consumable[j] == image;
    c := PipeHas(enableRtx, consumable, |consumable|, j);
  }

  /** With RTX, a pipe of a video codec carries its RTX codec right behind it, which the re-mapping therefore covers. */
  lemma PipedWithRtx(lib: H264, codecs: seq<Codec>, caps: seq<Codec>, i: nat) returns (p: nat)
    requires RouterShape(caps) && MapCodecs(lib, codecs, caps).Ok? && i < |codecs| && !IsRtx(codecs[i].format)
    requires IsVideo(caps[Home(lib, codecs, caps, i)].format)
    ensures var piped := Piped(lib, codecs, caps, true);
            && p + 1 < |piped| && SameCodec(piped[p], Image(lib, codecs, caps, i))
            && IsRtx(piped[p + 1].format) && Apt(piped[p + 1].format) == Some(piped[p].payloadType)
  {
    hide MapCodecs, Home, Rewritten, IsRtx, IsVideo, Apt, Negotiated, PipeCodecs;
    var k, consumable := Home(lib, codecs, caps, i), Negotiated(lib, codecs, caps, |codecs|);
    assert RtxFollows(caps[k], caps[k + 1]);
    p := NegotiatedPair(lib, codecs, caps, |codecs|, i);
    PipeCarries(consumable, |consumable|);
  }

  /** If the images match, a pipe codec that is media is mapped to the router codec with its own payload type. */
  lemma MediaRemap(lib: H264, codecs: seq<Codec>, caps: seq<Codec>, enableRtx: bool, q: nat) returns (k: nat)
    requires RouterShape(caps) && MapCodecs(lib, codecs, caps).Ok? && ImagesMatch(lib, codecs, caps)
    requires q < |Piped(lib, codecs, caps, enableRtx)| && !IsRtx(Piped(lib, codecs, caps, enableRtx)[q].format)
    ensures k < |caps| && !IsRtx(caps[k].format)
            && caps[k].payloadType == Piped(lib, codecs, caps, enableRtx)[q].payloadType
    ensures Target(lib, Piped(lib, codecs, caps, enableRtx), caps, q) == Ok(k)
  {
    hide MapCodecs, Home, Rewritten, IsRtx, Piped, FirstMatch, RouterShape;
    var piped := Piped(lib, codecs, caps, enableRtx);
    var i := PipedFrom(lib, codecs, caps, enableRtx, piped[q]);
    k := Home(lib, codecs, caps, i);
    assert SameCodec(piped[q], Image(lib, codecs, caps, i));
  }

  /** An RTX pipe codec is a copy of a router RTX codec and follows its media codec to itself. */
  lemma RtxRemap(lib: H264, codecs: seq<Codec>, caps: seq<Codec>, enableRtx: bool, q: nat)
    requires RouterShape(caps) && MapCodecs(lib, codecs, caps).Ok? && ImagesMatch(lib, codecs, caps)
    requires q < |Piped(lib, codecs, caps, enableRtx)| && IsRtx(Piped(lib, codecs, caps, enableRtx)[q].format)
    ensures var t := Target(lib, Piped(lib, codecs, caps, enableRtx), caps, q);
            t.Ok? && caps[t.value].payloadType == Piped(lib, codecs, caps, enableRtx)[q].payloadType
  {
    hide MapCodecs, Home, Rewritten, IsRtx, IsVideo, Apt, Piped, FirstMatch, ImagesMatch;
    var piped := Piped(lib, codecs, caps, enableRtx);
    var i := PipedFrom(lib, codecs, caps, enableRtx, piped[q]);
    var home := Home(lib, codecs, caps, i);
    assert SameCodec(piped[q], RtxCopy(caps[home + 1]));
    assert RtxFollows(caps[home], caps[home + 1]);
    var c := PipedHas(lib, codecs, caps, enableRtx, i);
    assert Some(c.payloadType) == Apt(piped[q].format);
    var j := FirstWithPt(piped, Apt(piped[q].format)).value;
    PipedPtIsMedia(lib, codecs, caps, enableRtx, j, home);
    var k := MediaRemap(lib, codecs, caps, enableRtx, j);
    assert k == home;
    RtxAfter(caps, home);
  }

  /** A pipe codec with the payload type of a media codec of the router is a media codec. */
  lemma PipedPtIsMedia(lib: H264, codecs: seq<Codec>, caps: seq<Codec>, enableRtx: bool, j: nat, k: nat)
    requires RouterShape(caps) && MapCodecs(lib, codecs, caps).Ok?
    requires j < |Piped(lib, codecs, caps, enableRtx)| && k < |caps| && !IsRtx(caps[k].format)
    requires Piped(lib, codecs, caps, enableRtx)[j].payloadType == caps[k].payloadType
    ensures !IsRtx(Piped(lib, codecs, caps, enableRtx)[j].format)
  {
    hide MapCodecs, Home, Rewritten, IsRtx, Piped, RtxFollows;
    var i := PipedFrom(lib, codecs, caps, enableRtx, Piped(lib, codecs, caps, enableRtx)[j]);
  }

  /** The images match, so re-mapping is the identity, RTX included. */
  lemma RemapIfImagesMatch(lib: H264, codecs: seq<Codec>, caps: seq<Codec>, enableRtx: bool)
    requires RouterShape(caps) && MapCodecs(lib, codecs, caps).Ok? && ImagesMatch(lib, codecs, caps)
    ensures RemapsToItself(lib, codecs, caps, enableRtx)
  {
    hide Piped, RouterShape, ImagesMatch, Target, IsRtx;
    var piped := Piped(lib, codecs, caps, enableRtx);
    forall q | 0 <= q < |piped|
      ensures Target(lib, piped, caps, q).Ok?
              && EntryOf(lib, piped, caps, q).payloadType == EntryOf(lib, piped, caps, q).mappedPayloadType
    {
      if IsRtx(piped[q].format) {
        RtxRemap(lib, codecs, caps, enableRtx, q);
      } else {
        var k := MediaRemap(lib, codecs, caps, enableRtx, q);
      }
    }
  }

  /** Re-mapping is the identity, so the images match. */
  lemma ImagesMatchIfRemap(lib: H264, codecs: seq<Codec>, caps: seq<Codec>, enableRtx: bool)
    requires RouterShape(caps) && MapCodecs(lib, codecs, caps).Ok? && RemapsToItself(lib, codecs, caps, enableRtx)
    ensures ImagesMatch(lib, codecs, caps)
  {
    hide MapCodecs, Home, Rewritten, IsRtx, IsVideo, Piped, FirstMatch, Order, RtxFollows;
    var piped := Piped(lib, codecs, caps, enableRtx);
    forall i | 0 <= i < |codecs| && !IsRtx(codecs[i].format)
      ensures FirstMatch(lib, Image(lib, codecs, caps, i).format, caps) == Some(Home(lib, codecs, caps, i))
    {
      var c := PipedHas(lib, codecs, caps, enableRtx, i);
      var q :| 0 <= q < |piped| && piped[q] == c;
      OrderComplete(piped, q);
      var a :| 0 <= a < |Order(piped)| && Order(piped)[a] == q;
      assert MapCodecs(lib, piped, caps).value[a] == EntryOf(lib, piped, caps, q);
    }
  }

  lemma RemapIffImagesMatch(lib: H264, codecs: seq<Codec>, caps: seq<Codec>, enableRtx: bool)
    requires RouterShape(caps) && MapCodecs(lib, codecs, caps).Ok?
    ensures RemapsToItself(lib, codecs, caps, enableRtx) <==> ImagesMatch(lib, codecs, caps)
  {
    hide RouterShape, RemapsToItself, ImagesMatch;
    if ImagesMatch(lib, codecs, caps) {
      RemapIfImagesMatch(lib, codecs, caps, enableRtx);
    }
    if RemapsToItself(lib, codecs, caps, enableRtx) {
      ImagesMatchIfRemap(lib, codecs, caps, enableRtx);
    }
  }

  // ----- When the images match -----

  /** Rewriting the profile-level-id to the negotiated one does not change what the codec matches. */
  ghost predicate Stable(lib: H264) {
    forall f: Format, g: Format, p: Parameters ::
      IsH264(f) && MatchH264(lib, f.parameters, g.parameters) ==>
        (MatchH264(lib, Modified(lib, f, g).parameters, p) <==> MatchH264(lib, f.parameters, p))
  }

  /** Stable, and codecs that match one codec match each other. */
  ghost predicate Consistent(lib: H264) {
    && Stable(lib)
    && (forall a: Parameters, b: Parameters :: MatchH264(lib, a, b) ==> MatchH264(lib, b, a))
    && (forall a: Parameters, b: Parameters, c: Parameters ::
          MatchH264(lib, a, b) && MatchH264(lib, b, c) ==> MatchH264(lib, a, c))
  }

  ghost predicate NoH264(codecs: seq<Codec>) {
    forall i :: 0 <= i < |codecs| ==> !IsH264(codecs[i].format)
  }

  /**
   A media codec that shares its payload type with an earlier one has the parameters that a match on the earlier
   one's MIME type compares: the profile for VP9, the streams for multiopus, the H.264 profile, and none otherwise.
   */
  ghost predicate PtsUnambiguous(lib: H264, codecs: seq<Codec>) {
    forall i :: 0 <= i < |codecs| && !IsRtx(codecs[i].format) ==> AgreesWithTwin(lib, codecs, i)
  }

  /** Twin is the first media codec with the payload type. */
  ghost predicate AgreesWithTwin(lib: H264, codecs: seq<Codec>, i: nat)
    requires i < |codecs| && !IsRtx(codecs[i].format)
  {
    var first := codecs[Twin(codecs, i)].format;
    Twin(codecs, i) == i ||
    MatchParameters(lib, Lower(first.mimeType), codecs[i].format.parameters, first.parameters, true)
  }

  /** The image of a codec matches what the codec matched. */
  lemma ImageMatchesAlike(lib: H264, f: Format, g: Format, h: Format)
    requires Match(lib, f, g, true)
    requires IsH264(f) ==> Stable(lib)
    ensures Match(lib, g.(parameters := Modified(lib, f, g).parameters), h, true) <==> Match(lib, f, h, true)
  {
    hide Lower;
    if IsH264(f) {
      assert MatchH264(lib, f.parameters, g.parameters);
      assert MatchH264(lib, Modified(lib, f, g).parameters, h.parameters)
             <==> MatchH264(lib, f.parameters, h.parameters);
    }
  }

  /** The rewrite changes nothing that is compared. */
  lemma RewriteHarmless(lib: H264, f: Format, g: Format, mime: string, q: Parameters)
    requires Match(lib, f, g, true) && (IsH264(f) ==> Stable(lib))
    ensures MatchParameters(lib, mime, Modified(lib, f, g).parameters, q, true)
            <==> MatchParameters(lib, mime, f.parameters, q, true)
  {
    hide Lower;
    if IsH264(f) {
      assert MatchH264(lib, f.parameters, g.parameters);
      assert MatchH264(lib, Modified(lib, f, g).parameters, q) <==> MatchH264(lib, f.parameters, q);
      var p, p' := f.parameters, Modified(lib, f, g).parameters;
      assert forall k | k != "profile-level-id" :: Get(p, k) == Get(p', k);
      assert "num_streams"[0] != "profile-level-id"[0] && "coupled_streams"[0] != "profile-level-id"[0];
      assert |"profile-id"| != |"profile-level-id"|;
    }
  }

  /** Parameters p in place of those of a codec f that matches g: they match what f does exactly if they match f. */
  lemma ParametersMatchAlike(lib: H264, f: Format, g: Format, p: Parameters, h: Format)
    requires Match(lib, f, g, true) && (IsH264(f) ==> Consistent(lib))
    ensures MatchParameters(lib, Lower(f.mimeType), p, f.parameters, true) ==>
              (Match(lib, g.(parameters := p), h, true) <==> Match(lib, f, h, true))
    ensures Match(lib, g.(parameters := p), g, true) ==> MatchParameters(lib, Lower(f.mimeType), p, f.parameters, true)
  {
    hide Lower, MatchH264, Stable;
  }

  /** Formats that match the same router codecs have the same first match. */
  lemma SameFirstMatch(lib: H264, f: Format, g: Format, caps: seq<Codec>)
    requires forall c :: 0 <= c < |caps| ==>
             (Match(lib, f, caps[c].format, true) <==> Match(lib, g, caps[c].format, true))
    ensures FirstMatch(lib, f, caps) == FirstMatch(lib, g, caps)
  {
    hide Match;
    var a, b := FirstMatch(lib, f, caps), FirstMatch(lib, g, caps);
    assert a.Some? ==> Match(lib, g, caps[a.value].format, true);
    assert b.Some? ==> Match(lib, f, caps[b.value].format, true);
  }

  /** What a library must guarantee: nothing without H.264, and consistency where an H.264 payload type is shared. */
  ghost predicate LibrarySuits(lib: H264, codecs: seq<Codec>) {
    forall i :: 0 <= i < |codecs| && !IsRtx(codecs[i].format) ==>
      && (IsH264(codecs[i].format) ==> Stable(lib))
      && (Twin(codecs, i) != i && IsH264(codecs[Twin(codecs, i)].format) ==> Consistent(lib))
  }

  lemma ImageParts(lib: H264, codecs: seq<Codec>, caps: seq<Codec>, i: nat)
    requires MapCodecs(lib, codecs, caps).Ok? && i < |codecs| && !IsRtx(codecs[i].format)
    ensures FirstMatch(lib, codecs[Twin(codecs, i)].format, caps) == Some(Home(lib, codecs, caps, i))
    ensures FirstMatch(lib, codecs[i].format, caps).Some?
    ensures var own := caps[FirstMatch(lib, codecs[i].format, caps).value].format;
            Image(lib, codecs, caps, i).format ==
            caps[Home(lib, codecs, caps, i)].format.(parameters := Modified(lib, codecs[i].format, own).parameters)
  {
    hide MapCodecs, IsRtx, IsH264, Match, FirstMatch, Modified, Twin;
    AllMapped(lib, codecs, caps);
    assert Target(lib, codecs, caps, i).Ok? && Target(lib, codecs, caps, Twin(codecs, i)).Ok?;
  }

  /** For one media codec: the image first matches its router codec exactly when the codec agrees with its twin. */
  lemma ImageMatchesIff(lib: H264, codecs: seq<Codec>, caps: seq<Codec>, i: nat)
    requires MapCodecs(lib, codecs, caps).Ok? && i < |codecs| && !IsRtx(codecs[i].format) && LibrarySuits(lib, codecs)
    ensures FirstMatch(lib, Image(lib, codecs, caps, i).format, caps) == Some(Home(lib, codecs, caps, i))
            <==> AgreesWithTwin(lib, codecs, i)
  {
    hide MapCodecs, IsRtx, IsH264, Match, MatchParameters, Modified, Twin, Stable, Consistent, Home, Image, Lower;
    var j, k := Twin(codecs, i), Home(lib, codecs, caps, i);
    var e, f, g := codecs[i].format, codecs[j].format, caps[k].format;
    ImageParts(lib, codecs, caps, i);
    var own := caps[FirstMatch(lib, e, caps).value].format;
    var image, p := Image(lib, codecs, caps, i).format, Modified(lib, e, own).parameters;
    if j == i {
      forall c | 0 <= c < |caps|
        ensures Match(lib, image, caps[c].format, true) <==> Match(lib, e, caps[c].format, true)
      {
        ImageMatchesAlike(lib, e, own, caps[c].format);
      }
      SameFirstMatch(lib, image, e, caps);
    } else {
      RewriteHarmless(lib, e, own, Lower(f.mimeType), f.parameters);
      ParametersMatchAlike(lib, f, g, p, g);
      if MatchParameters(lib, Lower(f.mimeType), p, f.parameters, true) {
        forall c | 0 <= c < |caps|
          ensures Match(lib, image, caps[c].format, true) <==> Match(lib, f, caps[c].format, true)
        {
          ParametersMatchAlike(lib, f, g, p, caps[c].format);
        }
        SameFirstMatch(lib, image, f, caps);
      }
    }
  }

  /**
   Exactly when piping a producer into a router with the same codecs keeps every payload type, RTX included: a
   question about the producer's own codecs, to be asked before they are mapped.
   */
  lemma RemapIdentityExact(lib: H264, supported: seq<Capability>, mediaCodecs: seq<Capability>, codecs: seq<Codec>,
                           enableRtx: bool)
    requires ValidSupported(supported) && RouterCodecs(lib, supported, mediaCodecs).Ok?
    requires MapCodecs(lib, codecs, RouterCodecs(lib, supported, mediaCodecs).value).Ok? && LibrarySuits(lib, codecs)
    ensures RemapsToItself(lib, codecs, RouterCodecs(lib, supported, mediaCodecs).value, enableRtx)
            <==> PtsUnambiguous(lib, codecs)
  {
    hide RouterCodecs, RouterShape, RemapsToItself, MapCodecs, LibrarySuits, ImagesMatch, PtsUnambiguous;
    RouterCodecsShape(lib, supported, mediaCodecs);
    RemapExact(lib, codecs, RouterCodecs(lib, supported, mediaCodecs).value, enableRtx);
  }

  lemma RemapExact(lib: H264, codecs: seq<Codec>, caps: seq<Codec>, enableRtx: bool)
    requires RouterShape(caps) && MapCodecs(lib, codecs, caps).Ok? && LibrarySuits(lib, codecs)
    ensures RemapsToItself(lib, codecs, caps, enableRtx) <==> PtsUnambiguous(lib, codecs)
  {
    hide RouterShape, RemapsToItself, MapCodecs, LibrarySuits, AgreesWithTwin, FirstMatch, Image, Home, IsRtx;
    RemapIffImagesMatch(lib, codecs, caps, enableRtx);
    forall i | 0 <= i < |codecs| && !IsRtx(codecs[i].format) {
      ImageMatchesIff(lib, codecs, caps, i);
    }
  }

  /** Without H.264 nothing is asked of the library; with distinct payload types, only that it is stable. */
  lemma LibrarySuitsWhen(lib: H264, codecs: seq<Codec>)
    requires NoH264(codecs) || Consistent(lib) || (DistinctPts(codecs) && Stable(lib))
    ensures LibrarySuits(lib, codecs)
  {
    hide IsRtx, IsH264, Stable;
  }

  lemma DistinctPtsUnambiguous(lib: H264, codecs: seq<Codec>)
    requires DistinctPts(codecs)
    ensures PtsUnambiguous(lib, codecs)
  {
    hide IsRtx, MatchParameters, Lower;
  }

  /** Media codecs that share a payload type are mapped to the same router codec; distinct payload types imply it. */
  ghost predicate PtsAgree(lib: H264, codecs: seq<Codec>, caps: seq<Codec>) {
    forall i, j :: 0 <= i < j < |codecs| && !IsRtx(codecs[i].format) && !IsRtx(codecs[j].format)
                   && codecs[i].payloadType == codecs[j].payloadType ==>
      Target(lib, codecs, caps, i) == Target(lib, codecs, caps, j)
  }

  lemma DistinctPtsAgree(lib: H264, codecs: seq<Codec>, caps: seq<Codec>)
    requires DistinctPts(codecs)
    ensures PtsAgree(lib, codecs, caps)
  {
    hide IsRtx, Target;
  }

  lemma ImageMatchesWhen(lib: H264, codecs: seq<Codec>, caps: seq<Codec>, i: nat)
    requires MapCodecs(lib, codecs, caps).Ok? && i < |codecs| && !IsRtx(codecs[i].format)
    requires FirstMatch(lib, codecs[i].format, caps) == FirstMatch(lib, codecs[Twin(codecs, i)].format, caps)
    requires IsH264(codecs[i].format) ==> Stable(lib)
    ensures FirstMatch(lib, Image(lib, codecs, caps, i).format, caps) == Some(Home(lib, codecs, caps, i))
  {
    hide MapCodecs, IsRtx, IsH264, Match, Modified, Twin, Stable, Home, Image;
    ImageParts(lib, codecs, caps, i);
    var f, image := codecs[i].format, Image(lib, codecs, caps, i).format;
    var g := caps[Home(lib, codecs, caps, i)].format;
    forall c | 0 <= c < |caps|
      ensures Match(lib, image, caps[c].format, true) <==> Match(lib, f, caps[c].format, true)
    {
      ImageMatchesAlike(lib, f, g, caps[c].format);
    }
    SameFirstMatch(lib, image, f, caps);
  }

  lemma ImagesMatchWhen(lib: H264, codecs: seq<Codec>, caps: seq<Codec>)
    requires MapCodecs(lib, codecs, caps).Ok? && PtsAgree(lib, codecs, caps) && (NoH264(codecs) || Stable(lib))
    ensures ImagesMatch(lib, codecs, caps)
  {
    hide MapCodecs, IsRtx, IsH264, FirstMatch, Stable, Home, Image;
    forall i | 0 <= i < |codecs| && !IsRtx(codecs[i].format)
      ensures FirstMatch(lib, Image(lib, codecs, caps, i).format, caps) == Some(Home(lib, codecs, caps, i))
    {
      AllMapped(lib, codecs, caps);
      assert Target(lib, codecs, caps, i) == Target(lib, codecs, caps, Twin(codecs, i));
      ImageMatchesWhen(lib, codecs, caps, i);
    }
  }

  /**
   The whole chain from the router's own codecs: re-mapping is the identity when codecs that share a payload type
   share their target, with a library that need only be stable.
   */
  lemma RemapIdentity(lib: H264, supported: seq<Capability>, mediaCodecs: seq<Capability>, codecs: seq<Codec>,
                      enableRtx: bool)
    requires ValidSupported(supported) && RouterCodecs(lib, supported, mediaCodecs).Ok?
    requires MapCodecs(lib, codecs, RouterCodecs(lib, supported, mediaCodecs).value).Ok?
    requires PtsAgree(lib, codecs, RouterCodecs(lib, supported, mediaCodecs).value) && (NoH264(codecs) || Stable(lib))
    ensures RemapsToItself(lib, codecs, RouterCodecs(lib, supported, mediaCodecs).value, enableRtx)
  {
    hide MapCodecs, RouterCodecs, RouterShape, PtsAgree, ImagesMatch, RemapsToItself, NoH264, Stable;
    var caps := RouterCodecs(lib, supported, mediaCodecs).value;
    RouterCodecsShape(lib, supported, mediaCodecs);
    ImagesMatchWhen(lib, codecs, caps);
    RemapIffImagesMatch(lib, codecs, caps, enableRtx);
  }

  /** Ambiguous payload types break it: two VP9 profiles under one payload type, offered to a router with both. */
  lemma RemapAmbiguous(lib: H264) returns (mediaCodecs: seq<Capability>, codecs: seq<Codec>)
    ensures RouterCodecs(lib, SUPPORTED, mediaCodecs).Ok?
    ensures MapCodecs(lib, codecs, RouterCodecs(lib, SUPPORTED, mediaCodecs).value).Ok?
    ensures !RemapsToItself(lib, codecs, RouterCodecs(lib, SUPPORTED, mediaCodecs).value, true)
  {
    mediaCodecs := [Capability(Vp9(0), None, []), Capability(Vp9(2), None, [])];
    codecs := [Codec(Vp9(0), 96, []), Codec(Vp9(2), 96, [])];
    hide SUPPORTED, RouterCodecs, RemapsToItself, MapCodecs, LibrarySuits, PtsUnambiguous, ValidSupported;
    SupportedIsValid();
    Vp9Router(lib, mediaCodecs);
    AmbiguousCodecs(lib, codecs);
    AmbiguousMaps(lib, codecs, RouterCodecs(lib, SUPPORTED, mediaCodecs).value);
    RemapIdentityExact(lib, SUPPORTED, mediaCodecs, codecs, true);
  }

  lemma AmbiguousCodecs(lib: H264, codecs: seq<Codec>)
    requires codecs == [Codec(Vp9(0), 96, []), Codec(Vp9(2), 96, [])]
    ensures LibrarySuits(lib, codecs) && !PtsUnambiguous(lib, codecs)
  {
    SampleNames();
    SampleKinds();
    assert NoH264(codecs) by {
      assert |"video/vp9"| == 9 && |"video/h264"| == 10 && |"video/h264-svc"| == 14;
    }
    LibrarySuitsWhen(lib, codecs);
    hide IsRtx;
    assert Twin(codecs, 1) == 0;
    assert !MatchParameters(lib, "video/vp9", Vp9(2).parameters, Vp9(0).parameters, true) by {
      assert "video/vp9"[0] != "audio/multiopus"[0] && |"video/vp9"| != |"video/h264"|
             && |"video/vp9"| != |"video/h264-svc"|;
    }
    assert !AgreesWithTwin(lib, codecs, 1);
  }

  /** The router with both profiles. */
  lemma Vp9Router(lib: H264, mediaCodecs: seq<Capability>)
    requires mediaCodecs == [Capability(Vp9(0), None, []), Capability(Vp9(2), None, [])]
    ensures var r := RouterCodecs(lib, SUPPORTED, mediaCodecs);
            r.Ok? && |r.value| == 4 && r.value[0].format == Vp9(0) && r.value[2].format == Vp9(2)
  {
    hide AddCodec, SUPPORTED, DYNAMIC, Free, IsRtx, Vp9;
    var m0, m2 := mediaCodecs[0], mediaCodecs[1];
    assert mediaCodecs[..1] == [m0] && [m0][..0] == [];
    assert RouterCodecs(lib, SUPPORTED, []) == Ok([]);
    FreeOfNone();
    DynamicLength();
    assert DYNAMIC[0..] == DYNAMIC;
    var one := AddVp9(lib, 0, [], 0);
    assert RouterCodecs(lib, SUPPORTED, [m0]) == Ok(one);
    var two := AddVp9(lib, 2, one, 2);
    assert RouterCodecs(lib, SUPPORTED, mediaCodecs) == Ok(two);
  }

  /** A VP9 profile is added with the next two payload types. */
  lemma AddVp9(lib: H264, profile: int, codecs: seq<Codec>, n: nat) returns (more: seq<Codec>)
    requires n + 2 <= |DYNAMIC| && Free(codecs) == DYNAMIC[n..]
    ensures AddCodec(lib, SUPPORTED, Capability(Vp9(profile), None, []), codecs) == Ok(more)
    ensures |more| == |codecs| + 2 && more[..|codecs|] == codecs && more[|codecs|].format == Vp9(profile)
    ensures Free(more) == DYNAMIC[n + 2..]
  {
    var s, media := Video("video/VP9", map[]), Capability(Vp9(profile), None, []);
    Vp9Supported(lib, profile);
    MergedVp9(profile, DYNAMIC[n]);
    hide SUPPORTED, DYNAMIC, Free, IsRtx, IsVideo, Merged, Append, Vp9, FirstSupported;
    FreeHead(codecs);
    assert DYNAMIC[n..][0] == DYNAMIC[n];
    assert s.preferredPayloadType.None?;
    more := AppendVideo(s, media, codecs, n);
  }

  lemma MergedVp9(profile: int, pt: int)
    ensures var c := Merged(Video("video/VP9", map[]), Capability(Vp9(profile), None, []), pt);
            c.format == Vp9(profile) && IsVideo(c.format)
  {
    var p := map["profile-id" := Num(profile)];
    assert map[] + p == p;
    SampleKinds();
  }

  lemma AppendVideo(s: Capability, media: Capability, codecs: seq<Codec>, n: nat) returns (more: seq<Codec>)
    requires n + 2 <= |DYNAMIC| && Free(codecs) == DYNAMIC[n..] && DYNAMIC[n] !in Used(codecs)
    requires IsVideo(Merged(s, media, DYNAMIC[n]).format)
    ensures Append(s, media, DYNAMIC[n], codecs) == Ok(more)
    ensures |more| == |codecs| + 2 && more[..|codecs|] == codecs && more[|codecs|] == Merged(s, media, DYNAMIC[n])
    ensures Free(more) == DYNAMIC[n + 2..]
  {
    hide DYNAMIC, Free, IsRtx, IsVideo, Merged, RtxOf, Used;
    var codec := Merged(s, media, DYNAMIC[n]);
    var longer, rtx := codecs + [codec], RtxOf(codec, DYNAMIC[n + 1]);
    NextFreePt(codecs, codec, n);
    NextFreePt(longer, rtx, n + 1);
    more := longer + [rtx];
    assert DYNAMIC[n + 1..][0] == DYNAMIC[n + 1];
    assert more[..|codecs|] == codecs;
  }

  lemma NextFreePt(codecs: seq<Codec>, c: Codec, n: nat)
    requires n < |DYNAMIC| && Free(codecs) == DYNAMIC[n..] && c.payloadType == DYNAMIC[n]
    ensures Free(codecs + [c]) == DYNAMIC[n + 1..]
  {
    hide DYNAMIC, Free;
    FreeMore(codecs, c);
    FreeDistinct(codecs);
    var pool := DYNAMIC[n..];
    WithoutAt(pool, 0);
    assert pool[..0] + pool[1..] == DYNAMIC[n + 1..];
  }

  lemma DynamicLength()
    ensures |DYNAMIC| == 32
  {}

  lemma AmbiguousMaps(lib: H264, codecs: seq<Codec>, caps: seq<Codec>)
    requires codecs == [Codec(Vp9(0), 96, []), Codec(Vp9(2), 96, [])]
    requires |caps| == 4 && caps[0].format == Vp9(0) && caps[2].format == Vp9(2)
    ensures MapCodecs(lib, codecs, caps).Ok?
  {
    SampleKinds();
    SampleMatches(lib);
    hide IsRtx, Match, Vp9, Rtx;
    assert Match(lib, Vp9(0), caps[0].format, true) && Match(lib, Vp9(2), caps[2].format, true);
    assert Target(lib, codecs, caps, 0).Ok? && Target(lib, codecs, caps, 1).Ok?;
    hide Target, FirstMatch;
  }

  /**
   A consumable codec is the producer's codec under the router's payload type: same name, clock and channels, with
   the parameters of the producer and the feedback of the router. For distinct payload types.
   */
  lemma ConsumableCarries(lib: H264, codecs: seq<Codec>, caps: seq<Codec>, i: nat)
    requires MapCodecs(lib, codecs, caps).Ok? && i < |codecs| && !IsRtx(codecs[i].format) && DistinctPts(codecs)
    ensures Target(lib, codecs, caps, i).Ok?
    ensures var f, cap := codecs[i].format, caps[Target(lib, codecs, caps, i).value];
            exists c <- Negotiated(lib, codecs, caps, |codecs|) ::
              && Lower(c.format.mimeType) == Lower(f.mimeType) && c.format.clockRate == f.clockRate
              && c.format.channels == f.channels
              && c.payloadType == cap.payloadType && c.rtcpFeedback == cap.rtcpFeedback
              && c.format.parameters == RewriteAll(lib, codecs, caps)[i].format.parameters
  {
    hide MapCodecs, IsRtx, Rewritten, Negotiated, Lower, Target, SameOrZero;
    AllMapped(lib, codecs, caps);
    MediaMapsIff(lib, codecs, caps, i);
    assert Twin(codecs, i) == i;
    NegotiatedHas(lib, codecs, caps, |codecs|, i);
    assert Image(lib, codecs, caps, i) in Negotiated(lib, codecs, caps, |codecs|);
  }
}
