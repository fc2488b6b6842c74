/** The whole of getConsumerRtpParameters: codecs, header extensions, RTCP feedback and encodings. */
module ConsumerParameters {
  import opened Wrappers
  import opened Codecs
  import opened Consumable
  import opened RtxSanitizing
  import opened Consumer
  import opened ScalabilityModes

  datatype Extension = Extension(uri: string, id: int)

  /** An absent maximum bitrate is 0 and an absent scalability mode is "", which the source treats alike. */
  datatype Encoding = Encoding(ssrc: int, rtxSsrc: Option<int>, maxBitrate: nat, scalabilityMode: string, dtx: bool)

  datatype Rtcp = Rtcp(cname: string, reducedSize: bool)

  datatype RtpParameters = RtpParameters(codecs: seq<Codec>, headerExtensions: seq<Extension>, encodings: seq<Encoding>,
                                         rtcp: Rtcp)

  datatype RtpCapabilities = RtpCapabilities(codecs: seq<Capability>, headerExtensions: seq<Extension>)

  const TRANSPORT_CC_URI := "http://www.ietf.org/id/draft-holmer-rmcat-transport-wide-cc-extensions-01"
  const ABS_SEND_TIME_URI := "http://www.webrtc.org/experiments/rtp-hdrext/abs-send-time"

  /** The extensions both sides have, in consumable order and as often as there. */
  function Common(exts: seq<Extension>, remote: seq<Extension>): (r: seq<Extension>)
    ensures forall e :: multiset(r)[e] == if e in remote then multiset(exts)[e] else 0
    ensures forall e :: e in r <==> e in exts && e in remote
  {
    assert exts != [] ==> exts == [exts[0]] + exts[1..];
    if exts == [] then []
    else if exts[0] in remote then [exts[0]] + Common(exts[1..], remote)
    else Common(exts[1..], remote)
  }

  /** Order is kept: the common extensions of two lists in a row are those of the one, then those of the other. */
  lemma {:induction false} CommonAppend(a: seq<Extension>, b: seq<Extension>, remote: seq<Extension>)
    ensures Common(a + b, remote) == Common(a, remote) + Common(b, remote)
  {
    if a == [] {
      assert a + b == b;
    } else {
      assert (a + b)[0] == a[0] && (a + b)[1..] == a[1..] + b;
      CommonAppend(a[1..], b, remote);
    }
  }

  predicate HasUri(exts: seq<Extension>, uri: string) {
    exists e <- exts :: e.uri == uri
  }

  /** Bandwidth estimation uses transport-cc if its extension is there, else REMB if abs-send-time is, else neither. */
  predicate KeepsFeedback(exts: seq<Extension>, fb: Feedback) {
    if HasUri(exts, TRANSPORT_CC_URI) then fb.typ != "goog-remb"
    else if HasUri(exts, ABS_SEND_TIME_URI) then fb.typ != "transport-cc"
    else fb.typ != "transport-cc" && fb.typ != "goog-remb"
  }

  function Reduced(exts: seq<Extension>, fbs: seq<Feedback>): (r: seq<Feedback>)
    ensures forall fb :: fb in r <==> fb in fbs && KeepsFeedback(exts, fb)
  {
    if fbs == [] then []
    else if KeepsFeedback(exts, fbs[0]) then [fbs[0]] + Reduced(exts, fbs[1..])
    else Reduced(exts, fbs[1..])
  }

  ghost predicate HasRtx(codecs: seq<Codec>) {
    exists c <- codecs :: IsRtx(c.format)
  }

  /** The largest bitrate among the encodings. */
  ghost predicate IsMaxBitrate(encodings: seq<Encoding>, m: nat) {
    && (forall i :: 0 <= i < |encodings| ==> encodings[i].maxBitrate <= m)
    && (m == 0 || exists i :: 0 <= i < |encodings| && encodings[i].maxBitrate == m)
  }

  /** The first scalability mode there is. */
  ghost predicate IsFirstMode(encodings: seq<Encoding>, mode: string) {
    if mode == "" then forall i :: 0 <= i < |encodings| ==> encodings[i].scalabilityMode == ""
    else
      exists i :: 0 <= i < |encodings| && encodings[i].scalabilityMode == mode
                  && forall j :: 0 <= j < i ==> encodings[j].scalabilityMode == ""
  }

  /**
   The mode of a single encoding is kept; several encodings are spatial layers with the temporal layers of the
   mode.
   */
  function ConsumerMode(n: nat, mode: string): string {
    if n > 1 then SimulcastMode(n, Parse(mode).temporalLayers) else mode
  }

  /**
   What the encodings of a consumer are. One encoding outside a pipe, with an RTX stream next to it exactly when an
   RTX codec survived; in a pipe one per consumable encoding, numbered from two random bases.
   */
  ghost predicate EncodingsFor(consumable: seq<Encoding>, pipe: bool, rtx: bool, ssrc: int, rtxSsrc: int,
                               r: seq<Encoding>) {
    if !pipe then
      && |r| == 1 && r[0].ssrc == ssrc && r[0].rtxSsrc == (if rtx then Some(ssrc + 1) else None) && !r[0].dtx
      && IsMaxBitrate(consumable, r[0].maxBitrate)
      && (exists mode :: IsFirstMode(consumable, mode) && r[0].scalabilityMode == ConsumerMode(|consumable|, mode))
    else
      && |r| == |consumable|
      && forall i :: 0 <= i < |r| ==>
           r[i] == consumable[i].(ssrc := ssrc + i, rtxSsrc := if rtx then Some(rtxSsrc + i) else None)
  }

  method MaxBitrate(encodings: seq<Encoding>) returns (m: nat)
    ensures IsMaxBitrate(encodings, m)
    ensures forall i :: 0 <= i < |encodings| ==> encodings[i].maxBitrate <= m
    ensures m == 0 || exists i :: 0 <= i < |encodings| && encodings[i].maxBitrate == m
  {
    m := 0;
    for i := 0 to |encodings|
      invariant forall j :: 0 <= j < i ==> encodings[j].maxBitrate <= m
      invariant m == 0 || exists j :: 0 <= j < i && encodings[j].maxBitrate == m
    {
      if encodings[i].maxBitrate > m {
        m := encodings[i].maxBitrate;
      }
    }
  }

  method FirstMode(encodings: seq<Encoding>) returns (mode: string)
    ensures IsFirstMode(encodings, mode)
    ensures mode == "" ==> forall i :: 0 <= i < |encodings| ==> encodings[i].scalabilityMode == ""
    ensures mode != "" ==> exists i :: 0 <= i < |encodings| && encodings[i].scalabilityMode == mode
                                       && forall j :: 0 <= j < i ==> encodings[j].scalabilityMode == ""
  {
    for i := 0 to |encodings|
      invariant forall j :: 0 <= j < i ==> encodings[j].scalabilityMode == ""
    {
      if encodings[i].scalabilityMode != "" {
        return encodings[i].scalabilityMode;
      }
    }
    return "";
  }

  method MakeEncodings(consumable: seq<Encoding>, pipe: bool, rtx: bool, ssrc: int, rtxSsrc: int)
    returns (r: seq<Encoding>)
    ensures EncodingsFor(consumable, pipe, rtx, ssrc, rtxSsrc, r)
    ensures !pipe ==> |r| == 1 && r[0].ssrc == ssrc && r[0].rtxSsrc == if rtx then Some(ssrc + 1) else None
    ensures !pipe ==> forall i :: 0 <= i < |consumable| ==> consumable[i].maxBitrate <= r[0].maxBitrate
    ensures pipe ==> |r| == |consumable|
    ensures pipe ==> forall i :: 0 <= i < |r| ==>
      r[i].ssrc == ssrc + i && r[i].rtxSsrc == (if rtx then Some(rtxSsrc + i) else None)
      && r[i].maxBitrate == consumable[i].maxBitrate && r[i].scalabilityMode == consumable[i].scalabilityMode
  {
    hide IsMaxBitrate, IsFirstMode, ConsumerMode;
    if !pipe {
      var mode := FirstMode(consumable);
      var maxBitrate := MaxBitrate(consumable);
      var own := if rtx then Some(ssrc + 1) else None;
      return [Encoding(ssrc, own, maxBitrate, ConsumerMode(|consumable|, mode), false)];
    }
    r := [];
    for i := 0 to |consumable|
      invariant EncodingsFor(consumable[..i], pipe, rtx, ssrc, rtxSsrc, r)
    {
      r := r + [consumable[i].(ssrc := ssrc + i, rtxSsrc := if rtx then Some(rtxSsrc + i) else None)];
    }
    assert consumable[..|consumable|] == consumable;
  }

  /**
   With up to 99 encodings the consumer's mode reads as one spatial layer each, with the temporal layers there
   were.
   */
  lemma ModeOfLayers(n: nat, mode: string)
    requires n > 1
    ensures Parse(ConsumerMode(n, mode)) == Mode(n, Parse(mode).temporalLayers, false) <==> n <= 99
  {
    hide Parse, SimulcastMode;
    ParsedBounded(mode);
    ParseSimulcast(n, Parse(mode).temporalLayers);
  }

  /** The codecs with the feedback the common extensions allow. */
  ghost function ReduceAll(exts: seq<Extension>, codecs: seq<Codec>): (r: seq<Codec>)
    ensures |r| == |codecs|
    ensures forall i :: 0 <= i < |r| ==> r[i] == codecs[i].(rtcpFeedback := Reduced(exts, codecs[i].rtcpFeedback))
  {
    seq(|codecs|, i requires 0 <= i < |codecs| => codecs[i].(rtcpFeedback := Reduced(exts, codecs[i].rtcpFeedback)))
  }

  /** None is "no compatible media codecs"; ssrc and rtxSsrc are the random numbers drawn. */
  method GetConsumerRtpParameters(lib: H264, consumable: RtpParameters, remote: RtpCapabilities, pipe: bool,
                                  enableRtx: bool, ssrc: int, rtxSsrc: int)
    returns (r: Option<RtpParameters>)
    ensures r.None? <==> ConsumerCodecs(lib, remote.codecs, enableRtx, consumable.codecs).None?
    ensures r.Some? ==>
      r.value.codecs == ReduceAll(r.value.headerExtensions,
                                  ConsumerCodecs(lib, remote.codecs, enableRtx, consumable.codecs).value)
    ensures r.Some? ==> r.value.headerExtensions == Common(consumable.headerExtensions, remote.headerExtensions)
    ensures r.Some? ==>
      EncodingsFor(consumable.encodings, pipe, HasRtx(r.value.codecs), ssrc, rtxSsrc, r.value.encodings)
    ensures r.Some? ==> r.value.rtcp == consumable.rtcp
  {
    hide IsRtx, Sweep, EncodingsFor, Reduced;
    var matched := MatchConsumable(lib, remote.codecs, enableRtx, consumable.codecs);
    var codecs, rtxSupported := SanitizeBackward(matched);
    if codecs == [] || IsRtx(codecs[0].format) {
      return None;
    }
    var headerExtensions := Common(consumable.headerExtensions, remote.headerExtensions);
    ghost var swept := codecs;
    for n := 0 to |codecs|
      invariant |codecs| == |swept|
      invariant forall i :: 0 <= i < n ==> codecs[i] == ReduceAll(headerExtensions, swept)[i]
      invariant forall i :: n <= i < |codecs| ==> codecs[i] == swept[i]
    {
      codecs := codecs[n := codecs[n].(rtcpFeedback := Reduced(headerExtensions, codecs[n].rtcpFeedback))];
    }
    ReduceKeepsRtx(headerExtensions, swept);
    var encodings := MakeEncodings(consumable.encodings, pipe, rtxSupported, ssrc, rtxSsrc);
    return Some(RtpParameters(codecs, headerExtensions, encodings, consumable.rtcp));
  }

  lemma ReduceKeepsRtx(exts: seq<Extension>, codecs: seq<Codec>)
    ensures HasRtx(ReduceAll(exts, codecs)) <==> HasRtx(codecs)
  {
    hide IsRtx, Reduced;
    var r := ReduceAll(exts, codecs);
    if HasRtx(r) {
      var i :| 0 <= i < |r| && IsRtx(r[i].format);
      assert codecs[i] in codecs && IsRtx(codecs[i].format);
    }
    if HasRtx(codecs) {
      var i :| 0 <= i < |codecs| && IsRtx(codecs[i].format);
      assert r[i] in r && IsRtx(r[i].format);
    }
  }

  /**
   No consumer codec asks for both ways of bandwidth estimation, and without RTX none asks for plain
   retransmissions.
   */
  lemma FeedbackExclusive(lib: H264, remote: seq<Capability>, enableRtx: bool, codecs: seq<Codec>,
                          exts: seq<Extension>, c: Codec)
    requires ConsumableShape(codecs) && ConsumerCodecs(lib, remote, enableRtx, codecs).Some?
    requires c in ReduceAll(exts, ConsumerCodecs(lib, remote, enableRtx, codecs).value)
    ensures !(exists f <- c.rtcpFeedback, g <- c.rtcpFeedback :: f.typ == "goog-remb" && g.typ == "transport-cc")
    ensures !enableRtx ==> Feedback("nack", "") !in c.rtcpFeedback
  {
    hide IsRtx, Sweep, Kept, Matched, AptsNameMedia, FirstCapability;
    var out := ConsumerCodecs(lib, remote, enableRtx, codecs).value;
    var m := Matched(lib, remote, enableRtx, codecs, |codecs|);
    MatchedAptsNameMedia(lib, remote, enableRtx, codecs);
    SweepIsFilter(m);
    var i :| 0 <= i < |out| && c == ReduceAll(exts, out)[i];
    assert out[i] in out;
    KeptOnly(m, m, out[i]);
    var j := MatchedFrom(lib, remote, enableRtx, codecs, |codecs|, out[i]);
  }

  /** Which bandwidth estimation stays: transport-cc with its extension, else REMB with abs-send-time, else none. */
  lemma ReducedMeans(exts: seq<Extension>, fbs: seq<Feedback>, fb: Feedback)
    ensures var ccUri := "http://www.ietf.org/id/draft-holmer-rmcat-transport-wide-cc-extensions-01";
            var absUri := "http://www.webrtc.org/experiments/rtp-hdrext/abs-send-time";
            var cc, abs := exists e <- exts :: e.uri == ccUri, exists e <- exts :: e.uri == absUri;
            fb in Reduced(exts, fbs) <==>
            fb in fbs && (fb.typ == "transport-cc" ==> cc) && (fb.typ == "goog-remb" ==> !cc && abs)
  {
    assert |"transport-cc"| == 12 && |"goog-remb"| == 9;
  }

  /** The RTX stream of a consumer: exactly if RTX is on, and an RTX codec and the codec it repairs are supported. */
  lemma RtxStreamIff(lib: H264, remote: seq<Capability>, enableRtx: bool, codecs: seq<Codec>, exts: seq<Extension>)
    requires AptsNameMedia(codecs) && ConsumerCodecs(lib, remote, enableRtx, codecs).Some?
    ensures HasRtx(ReduceAll(exts, ConsumerCodecs(lib, remote, enableRtx, codecs).value)) <==>
            enableRtx && exists i, j :: 0 <= i < |codecs| && 0 <= j < |codecs| && IsRtx(codecs[i].format)
                                        && Supported(lib, remote, codecs[i]) && Supported(lib, remote, codecs[j])
                                        && Apt(codecs[i].format) == Some(codecs[j].payloadType)
  {
    hide IsRtx, Supported, Apt, ConsumerCodecs, AptsNameMedia, ReduceAll, Survivors, MediaLeads, Survives;
    var out := ConsumerCodecs(lib, remote, enableRtx, codecs).value;
    ReduceKeepsRtx(exts, out);
    ConsumerCodecsExact(lib, remote, enableRtx, codecs);
    if HasRtx(out) {
      var c :| c in out && IsRtx(c.format);
      var i := SurvivorsFrom(lib, remote, enableRtx, codecs, |codecs|, c);
      SurvivesIff(lib, remote, enableRtx, codecs, i);
    }
    if enableRtx {
      if i, j :| 0 <= i < |codecs| && 0 <= j < |codecs| && IsRtx(codecs[i].format)
                 && Supported(lib, remote, codecs[i]) && Supported(lib, remote, codecs[j])
                 && Apt(codecs[i].format) == Some(codecs[j].payloadType) {
        var c := RtxWhenEnabled(lib, remote, codecs, i, j);
      }
    }
  }

  lemma {:induction false} SurvivorsFrom(lib: H264, remote: seq<Capability>, enableRtx: bool, codecs: seq<Codec>,
                                         n: nat, c: Codec) returns (i: nat)
    requires n <= |codecs| && c in Survivors(lib, remote, enableRtx, codecs, n)
    ensures i < n && Survives(lib, remote, enableRtx, codecs, i) && SameCodec(c, codecs[i])
  {
    hide Survives, IsRtx;
    if c in Survivors(lib, remote, enableRtx, codecs, n - 1) {
      i := SurvivorsFrom(lib, remote, enableRtx, codecs, n - 1, c);
    } else {
      i := n - 1;
    }
  }
}
