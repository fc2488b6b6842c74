/** Codecs as ortc.ts sees them after validation, and the relation that matches two of them. */
module Codecs {
  import opened Wrappers

  /** A codec parameter is a number or a string. */
  datatype Value = Num(n: int) | Str(s: string)

  type Parameters = map<string, Value>

  datatype Feedback = Feedback(typ: string, parameter: string)

  /** What two codecs are compared by. */
  datatype Format = Format(mimeType: string, clockRate: int, channels: Option<int>, parameters: Parameters)

  /** A codec whose payload type is settled: RTP parameters, and the codecs of a router. */
  datatype Codec = Codec(format: Format, payloadType: int, rtcpFeedback: seq<Feedback>)

  /** A codec whose preferred payload type is optional: supported, requested and remote capabilities. */
  datatype Capability = Capability(format: Format, preferredPayloadType: Option<int>, rtcpFeedback: seq<Feedback>)

  /** What generateProfileLevelIdForAnswer may do. */
  datatype Answer = Throws | Undefined | Level(id: string)

  /** The h264-profile-level-id library: any two deterministic functions. */
  datatype H264 = H264(
    isSameProfile: (Parameters, Parameters) -> bool,
    answer: (Parameters, Parameters) -> Answer)

  function LowerChar(c: char): char {
    if 'A' <= c <= 'Z' then c - 'A' + 'a' else c
  }

  function Lower(s: string): (r: string)
    ensures |r| == |s|
    ensures forall i :: 0 <= i < |s| ==> r[i] == LowerChar(s[i])
  {
    seq(|s|, i requires 0 <= i < |s| => LowerChar(s[i]))
  }

  predicate IsLineTerminator(c: char) {
    c in {'\n', '\r', '\U{2028}', '\U{2029}'}
  }

  /** The regular expression .+/rtx$ with the i flag: a dot matches no line terminator. */
  predicate IsRtxMime(m: string) {
    |m| >= 5 && !IsLineTerminator(m[|m| - 5]) && Lower(m)[|m| - 4..] == "/rtx"
  }

  predicate IsRtx(f: Format) {
    IsRtxMime(f.mimeType)
  }

  predicate IsVideo(f: Format) {
    |f.mimeType| > 6 && Lower(f.mimeType)[..6] == "video/"
  }

  predicate IsH264(f: Format) {
    Lower(f.mimeType) == "video/h264" || Lower(f.mimeType) == "video/h264-svc"
  }

  /** The media codec an RTX codec names; a missing or non-numeric apt equals no payload type. */
  function Apt(f: Format): Option<int> {
    if "apt" in f.parameters && f.parameters["apt"].Num? then Some(f.parameters["apt"].n) else None
  }

  function Get(p: Parameters, key: string): Option<Value> {
    if key in p then Some(p[key]) else None
  }

  /** p[key] || 0 */
  function GetOrZero(p: Parameters, key: string): Value {
    if key in p && p[key] != Str("") then p[key] else Num(0)
  }

  /** The strict checks on H.264 parameters. */
  predicate MatchH264(lib: H264, a: Parameters, b: Parameters) {
    && GetOrZero(a, "packetization-mode") == GetOrZero(b, "packetization-mode")
    && lib.isSameProfile(a, b)
    && lib.answer(a, b) != Throws
  }

  /** The checks on codec parameters, which depend on the (lower-case) MIME type. */
  predicate MatchParameters(lib: H264, mime: string, a: Parameters, b: Parameters, strict: bool) {
    if mime == "audio/multiopus" then
      && Get(a, "num_streams") == Get(b, "num_streams")
      && Get(a, "coupled_streams") == Get(b, "coupled_streams")
    else if mime == "video/h264" || mime == "video/h264-svc" then
      strict ==> MatchH264(lib, a, b)
    else if mime == "video/vp9" then
      strict ==> GetOrZero(a, "profile-id") == GetOrZero(b, "profile-id")
    else
      true
  }

  predicate Match(lib: H264, a: Format, b: Format, strict: bool) {
    && Lower(a.mimeType) == Lower(b.mimeType)
    && a.clockRate == b.clockRate
    && a.channels == b.channels
    && MatchParameters(lib, Lower(a.mimeType), a.parameters, b.parameters, strict)
  }

  /** What a successful strict match with the modify option leaves in a. */
  function Modified(lib: H264, a: Format, b: Format): Format {
    if !IsH264(a) then a
    else
      match lib.answer(a.parameters, b.parameters)
      case Level(id) =>
        if id == "" then a.(parameters := a.parameters - {"profile-level-id"})
        else a.(parameters := a.parameters["profile-level-id" := Str(id)])
      case _ => a.(parameters := a.parameters - {"profile-level-id"})
  }

  // ----- What it means for two codecs to be the same -----

  /** The parameter is the same, or absent from both. */
  ghost predicate SameParameter(a: Parameters, b: Parameters, key: string) {
    (key in a <==> key in b) && (key in a ==> a[key] == b[key])
  }

  /** The same, where an absent parameter, an empty text and 0 count as one. */
  ghost predicate SameOrZero(a: Parameters, b: Parameters, key: string) {
    if IsZero(a, key) then IsZero(b, key) else !IsZero(b, key) && a[key] == b[key]
  }

  ghost predicate IsZero(p: Parameters, key: string) {
    key !in p || p[key] == Num(0) || p[key] == Str("")
  }

  /** One codec of one kind: name, clock and channels, and for multiopus how the channels are coded. */
  ghost predicate SameKind(a: Format, b: Format) {
    && Lower(a.mimeType) == Lower(b.mimeType) && a.clockRate == b.clockRate && a.channels == b.channels
    && (Lower(a.mimeType) == "audio/multiopus" ==>
          SameParameter(a.parameters, b.parameters, "num_streams") &&
          SameParameter(a.parameters, b.parameters, "coupled_streams"))
  }

  /** One media format: beyond the kind, the profile of VP9 and H.264 and the packetization of H.264. */
  ghost predicate SameMedia(lib: H264, a: Format, b: Format) {
    && SameKind(a, b)
    && (Lower(a.mimeType) == "video/vp9" ==> SameOrZero(a.parameters, b.parameters, "profile-id"))
    && (Lower(a.mimeType) == "video/h264" || Lower(a.mimeType) == "video/h264-svc" ==>
          && SameOrZero(a.parameters, b.parameters, "packetization-mode")
          && lib.isSameProfile(a.parameters, b.parameters) && lib.answer(a.parameters, b.parameters) != Throws)
  }

  /** Strict matching is being one media format, lenient matching one kind. */
  lemma MatchMeans(lib: H264, a: Format, b: Format)
    ensures Match(lib, a, b, true) <==> SameMedia(lib, a, b)
    ensures Match(lib, a, b, false) <==> SameKind(a, b)
  {
    hide Lower;
    assert |"audio/multiopus"| == 15 && |"video/h264"| == 10 && |"video/h264-svc"| == 14 && |"video/vp9"| == 9;
  }

  /** Codecs that match agree on being RTX and on being H.264. */
  lemma MatchSameKind(a: Format, b: Format)
    requires Lower(a.mimeType) == Lower(b.mimeType)
    ensures IsRtx(a) == IsRtx(b) && IsH264(a) == IsH264(b) && IsVideo(a) == IsVideo(b)
  {
    var m, n := a.mimeType, b.mimeType;
    assert |m| == |Lower(m)| == |Lower(n)| == |n|;
    if |m| >= 5 {
      var i := |m| - 5;
      assert LowerChar(m[i]) == Lower(m)[i] == Lower(n)[i] == LowerChar(n[i]);
    }
  }

  /** Array.prototype.find, as an index. */
  function Find<T>(s: seq<T>, p: T -> bool): (r: Option<nat>)
    ensures r.Some? ==> r.value < |s| && p(s[r.value]) && forall i :: 0 <= i < r.value ==> !p(s[i])
    ensures r.None? ==> forall i :: 0 <= i < |s| ==> !p(s[i])
  {
    if s == [] then None
    else if p(s[0]) then Some(0)
    else
      match Find(s[1..], p)
      case None => None
      case Some(i) => Some(i + 1)
  }

  /** The first router codec that strictly matches the format. */
  function FirstMatch(lib: H264, a: Format, caps: seq<Codec>): (r: Option<nat>)
    ensures r.Some? ==> r.value < |caps| && Match(lib, a, caps[r.value].format, true)
                        && forall i :: 0 <= i < r.value ==> !Match(lib, a, caps[i].format, true)
    ensures r.None? ==> forall i :: 0 <= i < |caps| ==> !Match(lib, a, caps[i].format, true)
  {
    Find(caps, (c: Codec) => Match(lib, a, c.format, true))
  }

  /** The first remote capability that strictly matches the codec (the capability is the left operand). */
  function FirstCapability(lib: H264, remote: seq<Capability>, b: Format): (r: Option<nat>)
    ensures r.Some? ==> r.value < |remote| && Match(lib, remote[r.value].format, b, true)
                        && forall i :: 0 <= i < r.value ==> !Match(lib, remote[i].format, b, true)
    ensures r.None? ==> forall i :: 0 <= i < |remote| ==> !Match(lib, remote[i].format, b, true)
  {
    Find(remote, (c: Capability) => Match(lib, c.format, b, true))
  }

  /** The first codec with the payload type; an undefined payload type equals none. */
  function FirstWithPt(codecs: seq<Codec>, pt: Option<int>): (r: Option<nat>)
    ensures r.Some? ==> r.value < |codecs| && Some(codecs[r.value].payloadType) == pt
                        && forall i :: 0 <= i < r.value ==> Some(codecs[i].payloadType) != pt
    ensures r.None? ==> forall i :: 0 <= i < |codecs| ==> Some(codecs[i].payloadType) != pt
  {
    Find(codecs, (c: Codec) => Some(c.payloadType) == pt)
  }

  /** The first RTX codec whose apt is the payload type. */
  function FirstRtxFor(codecs: seq<Codec>, pt: int): (r: Option<nat>)
    ensures r.Some? ==> r.value < |codecs| && IsRtx(codecs[r.value].format) && Apt(codecs[r.value].format) == Some(pt)
                        && forall i :: 0 <= i < r.value ==>
                           !(IsRtx(codecs[i].format) && Apt(codecs[i].format) == Some(pt))
    ensures r.None? ==> forall i :: 0 <= i < |codecs| ==>
            !(IsRtx(codecs[i].format) && Apt(codecs[i].format) == Some(pt))
  {
    Find(codecs, (c: Codec) => IsRtx(c.format) && Apt(c.format) == Some(pt))
  }
}
