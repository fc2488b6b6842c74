/** generateRouterRtpCapabilities: the codecs of a router, with payload types drawn from a shrinking pool. */
module RouterCapabilities {
  import opened Wrappers
  import opened Codecs

  datatype Error = UnsupportedCodec | CannotAllocate | DuplicatedPayloadType(payloadType: int)

  /** The integers lo, lo + 1, ..., hi - 1. */
  function UpTo(lo: int, hi: int): (r: seq<int>)
    requires lo <= hi
    ensures |r| == hi - lo && forall i :: 0 <= i < |r| ==> r[i] == lo + i
    decreases hi - lo
  {
    if lo == hi then [] else [lo] + UpTo(lo + 1, hi)
  }

  /** The dynamic payload types of RFC 3551 section 6, those from 100 on first. */
  const DYNAMIC: seq<int> := UpTo(100, 128) + UpTo(96, 100)

  /** The supported codecs hold no RTX codec, and their own payload types are not dynamic. */
  predicate ValidSupported(supported: seq<Capability>) {
    forall s <- supported ::
      && !IsRtx(s.format)
      && (s.preferredPayloadType.Some? ==> s.preferredPayloadType.value !in DYNAMIC)
  }

  ghost function Used(codecs: seq<Codec>): set<int> {
    set c <- codecs :: c.payloadType
  }

  /** The pool without the used payload types, in order. */
  ghost function Without(pool: seq<int>, used: set<int>): (r: seq<int>)
    ensures forall x :: x in r <==> x in pool && x !in used
  {
    if pool == [] then []
    else if pool[0] in used then Without(pool[1..], used)
    else [pool[0]] + Without(pool[1..], used)
  }

  /** The dynamic payload types no codec of the router uses yet. */
  ghost function Free(codecs: seq<Codec>): seq<int> {
    Without(DYNAMIC, Used(codecs))
  }

  function FirstSupported(lib: H264, a: Format, supported: seq<Capability>): (r: Option<nat>)
    ensures r.Some? ==> r.value < |supported| && Match(lib, a, supported[r.value].format, false)
                        && forall i :: 0 <= i < r.value ==> !Match(lib, a, supported[i].format, false)
    ensures r.None? ==> forall i :: 0 <= i < |supported| ==> !Match(lib, a, supported[i].format, false)
  {
    Find(supported, (s: Capability) => Match(lib, a, s.format, false))
  }

  /** The supported codec with the requested parameters merged over its own. */
  function Merged(s: Capability, media: Capability, pt: int): (r: Codec)
    ensures r.payloadType == pt && IsRtx(r.format) == IsRtx(s.format) && IsVideo(r.format) == IsVideo(s.format)
  {
    Codec(s.format.(parameters := s.format.parameters + media.format.parameters), pt, s.rtcpFeedback)
  }

  function RtxOf(c: Codec, pt: int): (r: Codec)
    ensures IsRtx(r.format) && Apt(r.format) == Some(c.payloadType) && r.payloadType == pt
  {
    assert Lower("video/rtx")[5..] == "/rtx";
    Codec(Format("video/rtx", c.format.clockRate, None, map["apt" := Num(c.payloadType)]), pt, [])
  }

  /** Specification of one requested codec, with no pool: a dynamic payload type is the first one unused. */
  ghost function AddCodec(lib: H264, supported: seq<Capability>, media: Capability, codecs: seq<Codec>)
    : Result<seq<Codec>, Error>
  {
    match FirstSupported(lib, media.format, supported)
    case None => Err(UnsupportedCodec)
    case Some(k) =>
      match Chosen(supported[k], media, codecs)
      case None => Err(CannotAllocate)
      case Some(pt) => Append(supported[k], media, pt, codecs)
  }

  /** The requested payload type, else the supported one, else the first free one. */
  ghost function Chosen(s: Capability, media: Capability, codecs: seq<Codec>): Option<int> {
    if media.preferredPayloadType.Some? then media.preferredPayloadType
    else if s.preferredPayloadType.Some? then s.preferredPayloadType
    else if Free(codecs) == [] then None
    else Some(Free(codecs)[0])
  }

  ghost function Append(s: Capability, media: Capability, pt: int, codecs: seq<Codec>): Result<seq<Codec>, Error> {
    var codec := Merged(s, media, pt);
    var longer := codecs + [codec];
    if pt in Used(codecs) then Err(DuplicatedPayloadType(pt))
    else if !IsVideo(codec.format) then Ok(longer)
    else if Free(longer) == [] then Err(CannotAllocate)
    else Ok(longer + [RtxOf(codec, Free(longer)[0])])
  }

  /** Specification of the whole call. */
  ghost function RouterCodecs(lib: H264, supported: seq<Capability>, mediaCodecs: seq<Capability>)
    : Result<seq<Codec>, Error>
  {
    if mediaCodecs == [] then Ok([])
    else
      match RouterCodecs(lib, supported, mediaCodecs[..|mediaCodecs| - 1])
      case Err(e) => Err(e)
      case Ok(codecs) => AddCodec(lib, supported, mediaCodecs[|mediaCodecs| - 1], codecs)
  }

  /** An error in a prefix of the requested codecs is the error of the whole list. */
  lemma {:induction false} ErrorSticks(lib: H264, supported: seq<Capability>, media: seq<Capability>, n: nat)
    requires n <= |media|
    requires RouterCodecs(lib, supported, media[..n]).Err?
    ensures RouterCodecs(lib, supported, media) == RouterCodecs(lib, supported, media[..n])
  {
    if n == |media| {
      assert media[..n] == media;
    } else {
      var init := media[..|media| - 1];
      assert init[..n] == media[..n];
      ErrorSticks(lib, supported, init, n);
    }
  }

  lemma {:induction false} WithoutMore(pool: seq<int>, used: set<int>, pt: int)
    ensures Without(pool, used + {pt}) == Without(Without(pool, used), {pt})
  {
    if pool != [] {
      WithoutMore(pool[1..], used, pt);
      if pool[0] !in used {
        var rest := Without(pool[1..], used);
        assert ([pool[0]] + rest)[1..] == rest;
      }
    }
  }

  lemma UsedMore(codecs: seq<Codec>, c: Codec)
    ensures Used(codecs + [c]) == Used(codecs) + {c.payloadType}
  {
    forall pt ensures pt in Used(codecs + [c]) <==> pt in Used(codecs) + {c.payloadType} {
      if pt in Used(codecs) {
        var d :| d in codecs && d.payloadType == pt;
        assert d in codecs + [c];
      }
      if pt == c.payloadType {
        assert c in codecs + [c];
      }
    }
  }

  /** Adding a codec takes its payload type out of the free ones and leaves the others in order. */
  lemma FreeMore(codecs: seq<Codec>, c: Codec)
    ensures Free(codecs + [c]) == Without(Free(codecs), {c.payloadType})
  {
    UsedMore(codecs, c);
    WithoutMore(DYNAMIC, Used(codecs), c.payloadType);
  }

  ghost predicate Distinct(s: seq<int>) {
    forall i, j :: 0 <= i < j < |s| ==> s[i] != s[j]
  }

  lemma {:induction false} WithoutDistinct(pool: seq<int>, used: set<int>)
    requires Distinct(pool)
    ensures Distinct(Without(pool, used))
  {
    if pool != [] {
      WithoutDistinct(pool[1..], used);
    }
  }

  lemma {:induction false} WithoutAbsent(pool: seq<int>, pt: int)
    requires pt !in pool
    ensures Without(pool, {pt}) == pool
  {
    if pool != [] {
      WithoutAbsent(pool[1..], pt);
    }
  }

  /** Removing the only occurrence at index i. */
  lemma {:induction false} WithoutAt(pool: seq<int>, i: nat)
    requires Distinct(pool) && i < |pool|
    ensures Without(pool, {pool[i]}) == pool[..i] + pool[i + 1..]
  {
    if i == 0 {
      WithoutAbsent(pool[1..], pool[0]);
      assert pool[..0] + pool[1..] == pool[1..];
    } else {
      var rest := pool[1..];
      WithoutAt(rest, i - 1);
      assert pool[..i] + pool[i + 1..] == [pool[0]] + (rest[..i - 1] + rest[i..]);
    }
  }

  lemma DynamicDistinct()
    ensures Distinct(DYNAMIC)
  {
    var low, high := UpTo(96, 100), UpTo(100, 128);
    forall i, j | 0 <= i < j < |DYNAMIC| ensures DYNAMIC[i] != DYNAMIC[j] {
      assert DYNAMIC[i] == if i < 28 then high[i] else low[i - 28];
      assert DYNAMIC[j] == if j < 28 then high[j] else low[j - 28];
    }
  }

  lemma FreeHead(codecs: seq<Codec>)
    requires Free(codecs) != []
    ensures Free(codecs)[0] in DYNAMIC && Free(codecs)[0] !in Used(codecs)
  {
    assert Free(codecs)[0] in Free(codecs);
  }

  lemma FreeDistinct(codecs: seq<Codec>)
    ensures Distinct(Free(codecs))
  {
    hide DYNAMIC;
    DynamicDistinct();
    WithoutDistinct(DYNAMIC, Used(codecs));
  }

  lemma FreeOfNone()
    ensures Free([]) == DYNAMIC
  {
    assert Used([]) == {};
    WithoutNothing(DYNAMIC);
  }

  lemma {:induction false} WithoutNothing(pool: seq<int>)
    ensures Without(pool, {}) == pool
  {
    if pool != [] {
      WithoutNothing(pool[1..]);
    }
  }

  method IndexOf(pool: seq<int>, pt: int) returns (idx: int)
    ensures -1 <= idx < |pool|
    ensures idx == -1 <==> pt !in pool
    ensures idx >= 0 ==> pool[idx] == pt
  {
    for i := 0 to |pool|
      invariant pt !in pool[..i]
    {
      if pool[i] == pt {
        return i;
      }
    }
    return -1;
  }

  method HasPayloadType(codecs: seq<Codec>, pt: int) returns (found: bool)
    ensures found <==> pt in Used(codecs)
  {
    found := exists c :: c in codecs && c.payloadType == pt;
  }

  /** Chooses a payload type and takes it out of the pool. */
  method ChoosePayloadType(s: Capability, media: Capability, ghost codecs: seq<Codec>, pool: seq<int>)
    returns (pt: Option<int>, pool': seq<int>)
    requires pool == Free(codecs)
    requires s.preferredPayloadType.Some? ==> s.preferredPayloadType.value !in DYNAMIC
    ensures pt == Chosen(s, media, codecs)
    ensures pt.Some? ==> pool' == Without(pool, {pt.value})
  {
    FreeDistinct(codecs);
    pool' := pool;
    if media.preferredPayloadType.Some? {
      pt := media.preferredPayloadType;
      var idx := IndexOf(pool, pt.value);
      if idx > -1 {
        WithoutAt(pool, idx);
        pool' := pool[..idx] + pool[idx + 1..];
      } else {
        WithoutAbsent(pool, pt.value);
      }
    } else if s.preferredPayloadType.Some? {
      pt := s.preferredPayloadType;
      WithoutAbsent(pool, pt.value);
    } else if pool == [] {
      pt := None;
    } else {
      pt := Some(pool[0]);
      WithoutAt(pool, 0);
      pool' := pool[1..];
    }
  }

  /** Appends the codec and, for video, an RTX codec with the next payload type of the pool. */
  method AppendCodec(s: Capability, media: Capability, pt: int, codecs: seq<Codec>, pool: seq<int>)
    returns (r: Result<seq<Codec>, Error>, pool': seq<int>)
    requires pool == Without(Free(codecs), {pt})
    ensures r == Append(s, media, pt, codecs)
    ensures r.Ok? ==> pool' == Free(r.value)
  {
    pool' := pool;
    var duplicated := HasPayloadType(codecs, pt);
    if duplicated {
      return Err(DuplicatedPayloadType(pt)), pool;
    }
    var codec := Merged(s, media, pt);
    var longer := codecs + [codec];
    FreeMore(codecs, codec);
    if !IsVideo(codec.format) {
      return Ok(longer), pool;
    }
    if pool == [] {
      return Err(CannotAllocate), pool;
    }
    var rtxCodec := RtxOf(codec, pool[0]);
    FreeDistinct(longer);
    FreeMore(longer, rtxCodec);
    WithoutAt(pool, 0);
    return Ok(longer + [rtxCodec]), pool[1..];
  }

  /**
   The loop over the requested codecs. The pool is a plain list that loses elements as they are taken;
   it always equals the dynamic payload types that no codec uses, so the result is RouterCodecs.
   */
  method GenerateRouterRtpCapabilities(lib: H264, supported: seq<Capability>, mediaCodecs: seq<Capability>)
    returns (r: Result<seq<Codec>, Error>)
    requires ValidSupported(supported)
    ensures r == RouterCodecs(lib, supported, mediaCodecs)
  {
    hide Match, Free, Append, Chosen, FirstSupported;
    var dynamicPayloadTypes := DYNAMIC;
    r := Ok([]);
    FreeOfNone();
    for n := 0 to |mediaCodecs|
      invariant r.Ok? && r == RouterCodecs(lib, supported, mediaCodecs[..n])
      invariant dynamicPayloadTypes == Free(r.value)
    {
      var mediaCodec, codecs := mediaCodecs[n], r.value;
      assert mediaCodecs[..n + 1][..n] == mediaCodecs[..n];
      assert RouterCodecs(lib, supported, mediaCodecs[..n + 1]) == AddCodec(lib, supported, mediaCodec, codecs);
      var k := FirstSupported(lib, mediaCodec.format, supported);
      if k.None? {
        ErrorSticks(lib, supported, mediaCodecs, n + 1);
        return Err(UnsupportedCodec);
      }
      assert supported[k.value] in supported;
      var pt;
      pt, dynamicPayloadTypes := ChoosePayloadType(supported[k.value], mediaCodec, codecs, dynamicPayloadTypes);
      if pt.None? {
        ErrorSticks(lib, supported, mediaCodecs, n + 1);
        return Err(CannotAllocate);
      }
      r, dynamicPayloadTypes := AppendCodec(supported[k.value], mediaCodec, pt.value, codecs, dynamicPayloadTypes);
      if r.Err? {
        ErrorSticks(lib, supported, mediaCodecs, n + 1);
        return;
      }
    }
    assert mediaCodecs[..|mediaCodecs|] == mediaCodecs;
  }

  /**
   What the later stages rely on without checking: payload types are pairwise distinct, an RTX codec
   directly follows the video codec its apt names, and every video codec has one.
   */
  ghost predicate RouterShape(codecs: seq<Codec>) {
    && (forall i, j :: 0 <= i < j < |codecs| ==> codecs[i].payloadType != codecs[j].payloadType)
    && (forall i :: 0 <= i < |codecs| && IsRtx(codecs[i].format) ==> i > 0 && RtxFollows(codecs[i - 1], codecs[i]))
    && (forall i :: 0 <= i < |codecs| && !IsRtx(codecs[i].format) && IsVideo(codecs[i].format) ==>
          i + 1 < |codecs| && RtxFollows(codecs[i], codecs[i + 1]))
  }

  ghost predicate RtxFollows(media: Codec, rtx: Codec) {
    && !IsRtx(media.format) && IsVideo(media.format)
    && IsRtx(rtx.format) && Apt(rtx.format) == Some(media.payloadType)
    && rtx.payloadType in DYNAMIC
  }

  lemma UsedAt(codecs: seq<Codec>, pt: int)
    requires pt !in Used(codecs)
    ensures forall i :: 0 <= i < |codecs| ==> codecs[i].payloadType != pt
  {
    forall i | 0 <= i < |codecs| ensures codecs[i].payloadType != pt {
      assert codecs[i] in codecs;
    }
  }

  /** One requested codec keeps the shape. */
  lemma AppendShape(s: Capability, media: Capability, pt: int, codecs: seq<Codec>)
    requires RouterShape(codecs) && !IsRtx(s.format)
    requires Append(s, media, pt, codecs).Ok?
    ensures RouterShape(Append(s, media, pt, codecs).value)
  {
    hide IsRtx, IsVideo, Apt, Free, Used, Merged, RtxOf;
    var codec := Merged(s, media, pt);
    var longer := codecs + [codec];
    UsedAt(codecs, pt);
    if IsVideo(codec.format) {
      FreeHead(longer);
      UsedAt(longer, Free(longer)[0]);
      assert RtxFollows(codec, RtxOf(codec, Free(longer)[0]));
    }
  }

  /** Every capability list the router builds has the shape. */
  lemma {:induction false} RouterCodecsShape(lib: H264, supported: seq<Capability>, mediaCodecs: seq<Capability>)
    requires ValidSupported(supported)
    requires RouterCodecs(lib, supported, mediaCodecs).Ok?
    ensures RouterShape(RouterCodecs(lib, supported, mediaCodecs).value)
  {
    if mediaCodecs != [] {
      var init, media := mediaCodecs[..|mediaCodecs| - 1], mediaCodecs[|mediaCodecs| - 1];
      RouterCodecsShape(lib, supported, init);
      var codecs := RouterCodecs(lib, supported, init).value;
      var k := FirstSupported(lib, media.format, supported).value;
      var s := supported[k];
      assert s in supported;
      AppendShape(s, media, Chosen(s, media, codecs).value, codecs);
    }
  }
}
