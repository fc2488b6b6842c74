/** getConsumableRtpParameters: the parameters a router uses internally for the consumers of a producer. */
module Consumable {
  import opened Wrappers
  import opened Codecs
  import opened RouterCapabilities
  import opened ProducerMapping

  function MediaOf(cap: Codec, parameters: Parameters): (r: Codec)
    ensures r.payloadType == cap.payloadType && IsRtx(r.format) == IsRtx(cap.format)
  {
    Codec(cap.format.(parameters := parameters), cap.payloadType, cap.rtcpFeedback)
  }

  function RtxCopy(cap: Codec): (r: Codec)
    ensures r.payloadType == cap.payloadType && IsRtx(r.format) == IsRtx(cap.format) && Apt(r.format) == Apt(cap.format)
  {
    Codec(cap.format.(channels := None), cap.payloadType, cap.rtcpFeedback)
  }

  /** The one or two consumable codecs made from a media codec, by three lookups; None is reading from undefined. */
  function Block(c: Codec, caps: seq<Codec>, entries: seq<Entry>): Option<seq<Codec>> {
    match Lookup(entries, c.payloadType)
    case None => None
    case Some(pt) =>
      match FirstWithPt(caps, Some(pt))
      case None => None
      case Some(k) =>
        var media := MediaOf(caps[k], c.format.parameters);
        match FirstRtxFor(caps, media.payloadType)
        case None => Some([media])
        case Some(rtx) => Some([media, RtxCopy(caps[rtx])])
  }

  /** Specification of the codecs: the blocks of the media codecs, in order. */
  function ConsumableCodecs(codecs: seq<Codec>, caps: seq<Codec>, entries: seq<Entry>)
    : Option<seq<Codec>>
  {
    if codecs == [] then Some([])
    else
      var last := codecs[|codecs| - 1];
      match ConsumableCodecs(codecs[..|codecs| - 1], caps, entries)
      case None => None
      case Some(done) =>
        if IsRtx(last.format) then Some(done)
        else
          match Block(last, caps, entries)
          case None => None
          case Some(block) => Some(done + block)
  }

  lemma {:induction false} ConsumableErrorSticks(codecs: seq<Codec>, caps: seq<Codec>, entries: seq<Entry>, n: nat)
    requires n <= |codecs|
    requires ConsumableCodecs(codecs[..n], caps, entries).None?
    ensures ConsumableCodecs(codecs, caps, entries) == None
  {
    if n == |codecs| {
      assert codecs[..n] == codecs;
    } else {
      var init := codecs[..|codecs| - 1];
      assert init[..n] == codecs[..n];
      ConsumableErrorSticks(init, caps, entries, n);
    }
  }

  /** The loop over the producer codecs. */
  method GetConsumableCodecs(codecs: seq<Codec>, caps: seq<Codec>, entries: seq<Entry>)
    returns (r: Option<seq<Codec>>)
    ensures r == ConsumableCodecs(codecs, caps, entries)
  {
    hide Lookup, FirstWithPt, FirstRtxFor, IsRtx;
    var consumable: seq<Codec> := [];
    for n := 0 to |codecs|
      invariant ConsumableCodecs(codecs[..n], caps, entries) == Some(consumable)
    {
      assert codecs[..n + 1][..n] == codecs[..n];
      if IsRtx(codecs[n].format) {
        continue;
      }
      var pt := Lookup(entries, codecs[n].payloadType);
      if pt.None? {
        ConsumableErrorSticks(codecs, caps, entries, n + 1);
        return None;
      }
      var k := FirstWithPt(caps, Some(pt.value));
      if k.None? {
        ConsumableErrorSticks(codecs, caps, entries, n + 1);
        return None;
      }
      ghost var before := consumable;
      var media := MediaOf(caps[k.value], codecs[n].format.parameters);
      consumable := consumable + [media];
      var rtx := FirstRtxFor(caps, media.payloadType);
      if rtx.Some? {
        consumable := consumable + [RtxCopy(caps[rtx.value])];
        assert consumable == before + [media, RtxCopy(caps[rtx.value])];
      }
    }
    assert codecs[..|codecs|] == codecs;
    return Some(consumable);
  }

  // ----- The lookups succeed, and what the codecs look like -----

  /** The first media codec with the payload type of the media codec at i. */
  ghost function Twin(codecs: seq<Codec>, i: nat): (j: nat)
    requires i < |codecs| && !IsRtx(codecs[i].format)
    ensures j <= i && !IsRtx(codecs[j].format) && codecs[j].payloadType == codecs[i].payloadType
    ensures forall n :: 0 <= n < j && !IsRtx(codecs[n].format) ==> codecs[n].payloadType != codecs[i].payloadType
  {
    var p := (c: Codec) => !IsRtx(c.format) && c.payloadType == codecs[i].payloadType;
    assert p(codecs[i]);
    Find(codecs, p).value
  }

  /** The router codec that stands for the media codec at i. */
  ghost function Home(lib: H264, codecs: seq<Codec>, caps: seq<Codec>, i: nat): (k: nat)
    requires MapCodecs(lib, codecs, caps).Ok?
    requires i < |codecs| && !IsRtx(codecs[i].format)
    ensures k < |caps| && !IsRtx(caps[k].format)
  {
    AllMapped(lib, codecs, caps);
    MediaTarget(lib, codecs, caps, Twin(codecs, i));
    Target(lib, codecs, caps, Twin(codecs, i)).value
  }

  /** A media codec of the router with the producer's parameters, and its RTX codec if it has one. */
  ghost function Placed(caps: seq<Codec>, k: nat, parameters: Parameters): seq<Codec>
    requires k < |caps|
  {
    if k + 1 < |caps| && IsRtx(caps[k + 1].format) then [MediaOf(caps[k], parameters), RtxCopy(caps[k + 1])]
    else [MediaOf(caps[k], parameters)]
  }

  /** In a router, looking for the RTX codec of the codec at k is looking at place k + 1. */
  lemma RtxAfter(caps: seq<Codec>, k: nat)
    requires RouterShape(caps) && k < |caps| && !IsRtx(caps[k].format)
    ensures FirstRtxFor(caps, caps[k].payloadType) ==
            if k + 1 < |caps| && IsRtx(caps[k + 1].format) then Some(k + 1) else None
  {
    var found := FirstRtxFor(caps, caps[k].payloadType);
    if found.Some? {
      RtxIsNext(caps, k, found.value);
    }
  }

  /** No lookup for a media codec is undefined. */
  lemma BlockDefined(lib: H264, codecs: seq<Codec>, caps: seq<Codec>, i: nat)
    requires RouterShape(caps) && MapCodecs(lib, codecs, caps).Ok?
    requires i < |codecs| && !IsRtx(codecs[i].format)
    ensures Block(Rewritten(lib, codecs[i], caps), caps, MapCodecs(lib, codecs, caps).value) ==
            Some(Placed(caps, Home(lib, codecs, caps, i), Rewritten(lib, codecs[i], caps).format.parameters))
  {
    hide Target, MapCodecs, Rewritten, Apt, IsRtx, Lookup;
    var k := Home(lib, codecs, caps, i);
    LookupMedia(lib, codecs, caps, codecs[i].payloadType, Twin(codecs, i));
    assert FirstWithPt(caps, Some(caps[k].payloadType)) == Some(k);
    RtxAfter(caps, k);
  }

  /** The consumable codecs of a producer, written directly. */
  ghost function Negotiated(lib: H264, codecs: seq<Codec>, caps: seq<Codec>, n: nat): seq<Codec>
    requires MapCodecs(lib, codecs, caps).Ok? && n <= |codecs|
  {
    if n == 0 then []
    else if IsRtx(codecs[n - 1].format) then Negotiated(lib, codecs, caps, n - 1)
    else
      Negotiated(lib, codecs, caps, n - 1) +
      Placed(caps, Home(lib, codecs, caps, n - 1), Rewritten(lib, codecs[n - 1], caps).format.parameters)
  }

  /**
   For every producer whose parameters map, no lookup is ever undefined, and the codecs are the router's codecs
   with the producer's parameters.
   */
  lemma {:induction false} ConsumableDefined(lib: H264, codecs: seq<Codec>, caps: seq<Codec>, n: nat)
    requires RouterShape(caps) && MapCodecs(lib, codecs, caps).Ok? && n <= |codecs|
    ensures ConsumableCodecs(RewriteAll(lib, codecs, caps)[..n], caps, MapCodecs(lib, codecs, caps).value) ==
            Some(Negotiated(lib, codecs, caps, n))
  {
    hide MapCodecs, Rewritten, Block, Placed, IsRtx, Home, RouterShape;
    if n > 0 {
      ConsumableDefined(lib, codecs, caps, n - 1);
      var rewritten := RewriteAll(lib, codecs, caps);
      assert rewritten[..n][..n - 1] == rewritten[..n - 1];
      RewriteKeepsKind(lib, codecs[n - 1], caps);
      if !IsRtx(codecs[n - 1].format) {
        BlockDefined(lib, codecs, caps, n - 1);
      }
    }
  }

  /** Each RTX codec directly follows the media codec its apt names, and no apt names an RTX codec. */
  ghost predicate ConsumableShape(codecs: seq<Codec>) {
    (forall i :: 0 <= i < |codecs| ==> Linked(codecs, i)) && AptsNameMedia(codecs)
  }

  ghost predicate Linked(codecs: seq<Codec>, i: nat)
    requires i < |codecs|
  {
    IsRtx(codecs[i].format) ==>
      i > 0 && !IsRtx(codecs[i - 1].format) && Apt(codecs[i].format) == Some(codecs[i - 1].payloadType)
  }

  ghost predicate AptsNameMedia(codecs: seq<Codec>) {
    forall i, j :: 0 <= i < |codecs| && 0 <= j < |codecs| && IsRtx(codecs[i].format) && IsRtx(codecs[j].format) ==>
      Apt(codecs[i].format) != Some(codecs[j].payloadType)
  }

  /** The codec has the payload type of a router codec of the same kind, with the same apt if it is RTX. */
  ghost predicate FromRouter(c: Codec, caps: seq<Codec>) {
    exists k :: 0 <= k < |caps| && caps[k].payloadType == c.payloadType && IsRtx(caps[k].format) == IsRtx(c.format)
                && (IsRtx(c.format) ==> Apt(caps[k].format) == Apt(c.format))
  }

  /** An apt copied from the router never names an RTX codec of the router. */
  lemma AptNotRtx(caps: seq<Codec>, c: Codec, d: Codec)
    requires RouterShape(caps) && FromRouter(c, caps) && FromRouter(d, caps)
    requires IsRtx(c.format) && IsRtx(d.format)
    ensures Apt(c.format) != Some(d.payloadType)
  {
    var k :| 0 <= k < |caps| && caps[k].payloadType == c.payloadType && IsRtx(caps[k].format)
             && Apt(caps[k].format) == Apt(c.format);
    var m :| 0 <= m < |caps| && caps[m].payloadType == d.payloadType && IsRtx(caps[m].format);
    assert RtxFollows(caps[k - 1], caps[k]);
    assert m != k - 1;
  }

  /** Every codec comes from the router and every RTX codec is linked. */
  ghost predicate RouterMade(codecs: seq<Codec>, caps: seq<Codec>) {
    && (forall i :: 0 <= i < |codecs| ==> FromRouter(codecs[i], caps))
    && (forall i :: 0 <= i < |codecs| ==> Linked(codecs, i))
  }

  lemma RouterMadeEmpty(caps: seq<Codec>)
    ensures RouterMade([], caps)
  {}

  lemma RouterMadeMore(caps: seq<Codec>, a: seq<Codec>, b: seq<Codec>)
    requires RouterMade(a, caps) && RouterMade(b, caps)
    ensures RouterMade(a + b, caps)
  {
    hide FromRouter, IsRtx, Apt;
    forall i | 0 <= i < |a + b| ensures Linked(a + b, i) {
      if i < |a| {
        assert Linked(a, i);
      } else {
        assert Linked(b, i - |a|);
      }
    }
  }

  lemma PlacedShape(caps: seq<Codec>, k: nat, parameters: Parameters)
    requires RouterShape(caps) && k < |caps| && !IsRtx(caps[k].format)
    ensures RouterMade(Placed(caps, k, parameters), caps)
  {
    hide IsRtx, Apt, IsVideo;
    if k + 1 < |caps| && IsRtx(caps[k + 1].format) {
      assert RtxFollows(caps[k], caps[k + 1]);
    }
  }

  lemma {:induction false} NegotiatedFromRouter(lib: H264, codecs: seq<Codec>, caps: seq<Codec>, n: nat)
    requires RouterShape(caps) && MapCodecs(lib, codecs, caps).Ok? && n <= |codecs|
    ensures RouterMade(Negotiated(lib, codecs, caps, n), caps)
  {
    hide RouterShape, RouterMade, MapCodecs, Rewritten, Home, Placed, IsRtx;
    if n == 0 {
      RouterMadeEmpty(caps);
    } else {
      NegotiatedFromRouter(lib, codecs, caps, n - 1);
      if !IsRtx(codecs[n - 1].format) {
        var k := Home(lib, codecs, caps, n - 1);
        var parameters := Rewritten(lib, codecs[n - 1], caps).format.parameters;
        PlacedShape(caps, k, parameters);
        RouterMadeMore(caps, Negotiated(lib, codecs, caps, n - 1), Placed(caps, k, parameters));
      }
    }
  }

  lemma RouterMadeShape(caps: seq<Codec>, all: seq<Codec>)
    requires RouterShape(caps) && RouterMade(all, caps)
    ensures ConsumableShape(all)
  {
    hide RouterShape, IsRtx, Apt, FromRouter;
    forall i, j | 0 <= i < |all| && 0 <= j < |all| && IsRtx(all[i].format) && IsRtx(all[j].format)
      ensures Apt(all[i].format) != Some(all[j].payloadType)
    {
      AptNotRtx(caps, all[i], all[j]);
    }
  }

  /**
   For every producer whose parameters map: no lookup is undefined, and the consumable codecs have the shape the
   consumer stage relies on.
   */
  lemma ConsumableHasShape(lib: H264, codecs: seq<Codec>, caps: seq<Codec>)
    requires RouterShape(caps) && MapCodecs(lib, codecs, caps).Ok?
    ensures ConsumableCodecs(RewriteAll(lib, codecs, caps), caps, MapCodecs(lib, codecs, caps).value) ==
            Some(Negotiated(lib, codecs, caps, |codecs|))
    ensures ConsumableShape(Negotiated(lib, codecs, caps, |codecs|))
  {
    hide RouterShape, RouterMade, ConsumableShape, ConsumableCodecs, MapCodecs, Rewritten, Negotiated;
    ConsumableDefined(lib, codecs, caps, |codecs|);
    assert RewriteAll(lib, codecs, caps)[..|codecs|] == RewriteAll(lib, codecs, caps);
    NegotiatedFromRouter(lib, codecs, caps, |codecs|);
    RouterMadeShape(caps, Negotiated(lib, codecs, caps, |codecs|));
  }
}
