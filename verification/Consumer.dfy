/** canConsume and getConsumerRtpParameters. */
module Consumer {
  import opened Wrappers
  import opened Codecs
  import opened RouterCapabilities
  import opened ProducerMapping
  import opened Consumable
  import opened RtxSanitizing
  import opened SampleCodecs

  /** The remote endpoint supports the codec. */
  predicate Supported(lib: H264, remote: seq<Capability>, c: Codec) {
    FirstCapability(lib, remote, c.format).Some?
  }

  predicate Wanted(lib: H264, remote: seq<Capability>, enableRtx: bool, c: Codec) {
    (enableRtx || !IsRtx(c.format)) && Supported(lib, remote, c)
  }

  /** The filter on RTCP feedback: without RTX a plain nack goes. */
  function DropNack(fbs: seq<Feedback>, enableRtx: bool): (r: seq<Feedback>)
    ensures forall fb :: fb in r <==> fb in fbs && (enableRtx || fb.typ != "nack" || fb.parameter != "")
  {
    if fbs == [] then []
    else if enableRtx || fbs[0].typ != "nack" || fbs[0].parameter != "" then [fbs[0]] + DropNack(fbs[1..], enableRtx)
    else DropNack(fbs[1..], enableRtx)
  }

  /** The codec with the feedback of the capability it matched. */
  function Narrowed(lib: H264, remote: seq<Capability>, enableRtx: bool, c: Codec): (r: Codec)
    ensures r.format == c.format && r.payloadType == c.payloadType
  {
    match FirstCapability(lib, remote, c.format)
    case None => c
    case Some(k) => c.(rtcpFeedback := DropNack(remote[k].rtcpFeedback, enableRtx))
  }

  /** Specification of the first loop: the wanted codecs among the first n, narrowed, in order. */
  ghost function Matched(lib: H264, remote: seq<Capability>, enableRtx: bool, codecs: seq<Codec>, n: nat): seq<Codec>
    requires n <= |codecs|
  {
    if n == 0 then []
    else if Wanted(lib, remote, enableRtx, codecs[n - 1]) then
      Matched(lib, remote, enableRtx, codecs, n - 1) + [Narrowed(lib, remote, enableRtx, codecs[n - 1])]
    else
      Matched(lib, remote, enableRtx, codecs, n - 1)
  }

  method MatchConsumable(lib: H264, remote: seq<Capability>, enableRtx: bool, codecs: seq<Codec>)
    returns (matched: seq<Codec>)
    ensures matched == Matched(lib, remote, enableRtx, codecs, |codecs|)
  {
    matched := [];
    for n := 0 to |codecs|
      invariant matched == Matched(lib, remote, enableRtx, codecs, n)
    {
      if !enableRtx && IsRtx(codecs[n].format) {
        continue;
      }
      var k := FirstCapability(lib, remote, codecs[n].format);
      if k.None? {
        continue;
      }
      matched := matched + [codecs[n].(rtcpFeedback := DropNack(remote[k.value].rtcpFeedback, enableRtx))];
    }
  }

  /** Specification of the codecs, before feedback is reduced; None is "no compatible media codecs". */
  ghost function ConsumerCodecs(lib: H264, remote: seq<Capability>, enableRtx: bool,
                                codecs: seq<Codec>): Option<seq<Codec>> {
    var matched := Matched(lib, remote, enableRtx, codecs, |codecs|);
    var swept := Sweep(matched, |matched|);
    if swept == [] || IsRtx(swept[0].format) then None else Some(swept)
  }

  // ----- canConsume -----

  /** The first consumable codec the remote endpoint supports. */
  function FirstSupportedCodec(lib: H264, remote: seq<Capability>, codecs: seq<Codec>): (r: Option<nat>)
    ensures r.Some? ==> r.value < |codecs| && Supported(lib, remote, codecs[r.value])
                        && forall i :: 0 <= i < r.value ==> !Supported(lib, remote, codecs[i])
    ensures r.None? ==> forall i :: 0 <= i < |codecs| ==> !Supported(lib, remote, codecs[i])
  {
    Find(codecs, (c: Codec) => Supported(lib, remote, c))
  }

  ghost predicate CanBeConsumed(lib: H264, remote: seq<Capability>, codecs: seq<Codec>) {
    FirstSupportedCodec(lib, remote, codecs).Some?
    && !IsRtx(codecs[FirstSupportedCodec(lib, remote, codecs).value].format)
  }

  /** canConsume: collect the supported codecs, then look at the first. */
  method CanConsume(lib: H264, remote: seq<Capability>, codecs: seq<Codec>) returns (can: bool)
    ensures can <==> CanBeConsumed(lib, remote, codecs)
  {
    hide IsRtx, FirstCapability;
    var matching: seq<Codec> := [];
    for n := 0 to |codecs|
      invariant matching == [] <==> forall i :: 0 <= i < n ==> !Supported(lib, remote, codecs[i])
      invariant matching != [] ==>
        var first := FirstSupportedCodec(lib, remote, codecs);
        first.Some? && first.value < n && matching[0] == codecs[first.value]
    {
      var k := FirstCapability(lib, remote, codecs[n].format);
      if k.None? {
        continue;
      }
      assert Supported(lib, remote, codecs[n]);
      matching := matching + [codecs[n]];
    }
    return matching != [] && !IsRtx(matching[0].format);
  }

  /** The first matched codec comes from the first wanted one. */
  lemma {:induction false} MatchedHead(lib: H264, remote: seq<Capability>, enableRtx: bool, codecs: seq<Codec>,
                                       n: nat, i: nat)
    requires i < |codecs| && n <= |codecs| && Wanted(lib, remote, enableRtx, codecs[i])
    requires forall j :: 0 <= j < i ==> !Wanted(lib, remote, enableRtx, codecs[j])
    ensures n <= i ==> Matched(lib, remote, enableRtx, codecs, n) == []
    ensures n > i ==> Matched(lib, remote, enableRtx, codecs, n) != []
                      && Matched(lib, remote, enableRtx, codecs, n)[0].format == codecs[i].format
  {
    hide Wanted, Narrowed;
    if n > 0 {
      MatchedHead(lib, remote, enableRtx, codecs, n - 1, i);
    }
  }

  /** A media codec at the head is never spliced away. */
  lemma {:induction false} SweepKeepsHead(list: seq<Codec>, n: nat)
    requires n <= |list| && list != [] && !IsRtx(list[0].format)
    ensures Sweep(list, n) != [] && Sweep(list, n)[0] == list[0]
    decreases n
  {
    hide IsRtx;
    if n > 0 {
      if Stays(list, list[n - 1]) {
        SweepKeepsHead(list, n - 1);
      } else {
        SweepKeepsHead(list[..n - 1] + list[n..], n - 1);
      }
    }
  }

  /** canConsume is sound on every input: if it says yes, a consumer gets parameters, with and without RTX. */
  lemma CanConsumeSound(lib: H264, remote: seq<Capability>, enableRtx: bool, codecs: seq<Codec>)
    requires CanBeConsumed(lib, remote, codecs)
    ensures ConsumerCodecs(lib, remote, enableRtx, codecs).Some?
  {
    hide IsRtx, Supported, Sweep, Matched;
    var i := FirstSupportedCodec(lib, remote, codecs).value;
    MatchedHead(lib, remote, enableRtx, codecs, |codecs|, i);
    var matched := Matched(lib, remote, enableRtx, codecs, |codecs|);
    assert IsRtx(matched[0].format) == IsRtx(codecs[i].format);
    SweepKeepsHead(matched, |matched|);
  }

  // ----- Which codecs a consumer ends up with -----

  ghost predicate SameCodec(a: Codec, b: Codec) {
    a.format == b.format && a.payloadType == b.payloadType
  }

  /** a is a subsequence of b, up to RTCP feedback. */
  ghost predicate IsSubsequence(a: seq<Codec>, b: seq<Codec>)
    decreases |b|
  {
    a == [] ||
    (b != [] &&
     ((SameCodec(a[|a| - 1], b[|b| - 1]) && IsSubsequence(a[..|a| - 1], b[..|b| - 1]))
      || IsSubsequence(a, b[..|b| - 1])))
  }

  lemma SubsequenceSnoc(a: seq<Codec>, b: seq<Codec>, c: Codec, d: Codec)
    requires IsSubsequence(a, b)
    ensures IsSubsequence(a, b + [d])
    ensures SameCodec(c, d) ==> IsSubsequence(a + [c], b + [d])
  {
    assert (b + [d])[..|b + [d]| - 1] == b;
    assert (a + [c])[..|a + [c]| - 1] == a;
  }

  lemma NoneIsSubsequence(all: seq<Codec>, codecs: seq<Codec>)
    ensures IsSubsequence(Kept(all, []), codecs[..0])
  {}

  lemma {:induction false} KeptIsSubsequence(lib: H264, remote: seq<Capability>, enableRtx: bool, codecs: seq<Codec>,
                                             all: seq<Codec>, n: nat)
    requires n <= |codecs|
    ensures IsSubsequence(Kept(all, Matched(lib, remote, enableRtx, codecs, n)), codecs[..n])
  {
    hide Wanted, Narrowed, Stays, IsSubsequence, Kept;
    if n == 0 {
      NoneIsSubsequence(all, codecs);
    } else {
      KeptIsSubsequence(lib, remote, enableRtx, codecs, all, n - 1);
      var before, c := Matched(lib, remote, enableRtx, codecs, n - 1), Narrowed(lib, remote, enableRtx, codecs[n - 1]);
      assert codecs[..n] == codecs[..n - 1] + [codecs[n - 1]];
      KeptSnoc(all, before, c);
      SubsequenceSnoc(Kept(all, before), codecs[..n - 1], c, codecs[n - 1]);
    }
  }

  lemma {:induction false} MatchedFrom(lib: H264, remote: seq<Capability>, enableRtx: bool, codecs: seq<Codec>,
                                       n: nat, c: Codec)
    returns (i: nat)
    requires n <= |codecs| && c in Matched(lib, remote, enableRtx, codecs, n)
    ensures i < n && Wanted(lib, remote, enableRtx, codecs[i]) && c == Narrowed(lib, remote, enableRtx, codecs[i])
  {
    hide Wanted, Narrowed;
    if Wanted(lib, remote, enableRtx, codecs[n - 1]) && c == Narrowed(lib, remote, enableRtx, codecs[n - 1]) {
      i := n - 1;
    } else {
      i := MatchedFrom(lib, remote, enableRtx, codecs, n - 1, c);
    }
  }

  lemma {:induction false} MatchedHas(lib: H264, remote: seq<Capability>, enableRtx: bool, codecs: seq<Codec>, n: nat,
                                      i: nat)
    requires i < n <= |codecs| && Wanted(lib, remote, enableRtx, codecs[i])
    ensures Narrowed(lib, remote, enableRtx, codecs[i]) in Matched(lib, remote, enableRtx, codecs, n)
  {
    hide Wanted, Narrowed;
    if i < n - 1 {
      MatchedHas(lib, remote, enableRtx, codecs, n - 1, i);
    }
  }

  /** The matched codecs keep the invariant that no apt names an RTX codec. */
  lemma MatchedAptsNameMedia(lib: H264, remote: seq<Capability>, enableRtx: bool, codecs: seq<Codec>)
    requires AptsNameMedia(codecs)
    ensures AptsNameMedia(Matched(lib, remote, enableRtx, codecs, |codecs|))
  {
    hide Wanted, Narrowed, IsRtx, Apt, Matched;
    var m := Matched(lib, remote, enableRtx, codecs, |codecs|);
    forall p, q | 0 <= p < |m| && 0 <= q < |m| && IsRtx(m[p].format) && IsRtx(m[q].format)
      ensures Apt(m[p].format) != Some(m[q].payloadType)
    {
      var i := MatchedFrom(lib, remote, enableRtx, codecs, |codecs|, m[p]);
      var j := MatchedFrom(lib, remote, enableRtx, codecs, |codecs|, m[q]);
    }
  }

  /** On whatever the pipeline can hand to them, the two ports keep the same codecs, for every remote endpoint. */
  lemma PortsAgree(lib: H264, codecs: seq<Codec>, caps: seq<Codec>, remote: seq<Capability>, enableRtx: bool)
    requires RouterShape(caps) && MapCodecs(lib, codecs, caps).Ok?
    ensures var consumable := Negotiated(lib, codecs, caps, |codecs|);
            var matched := Matched(lib, remote, enableRtx, consumable, |consumable|);
            Sweep(matched, |matched|) == Kept(matched, matched)
  {
    hide Linked, AptsNameMedia, Kept, Sweep, Matched, Negotiated, RouterShape, MapCodecs;
    ConsumableHasShape(lib, codecs, caps);
    var consumable := Negotiated(lib, codecs, caps, |codecs|);
    MatchedAptsNameMedia(lib, remote, enableRtx, consumable);
    SweepIsFilter(Matched(lib, remote, enableRtx, consumable, |consumable|));
  }

  /**
   Closure: the codecs of a consumer are a subsequence of the consumable ones, start with a media codec, and with
   every RTX codec hold the media codec it repairs.
   */
  lemma ConsumerClosure(lib: H264, remote: seq<Capability>, enableRtx: bool, codecs: seq<Codec>)
    requires ConsumableShape(codecs) && ConsumerCodecs(lib, remote, enableRtx, codecs).Some?
    ensures var out := ConsumerCodecs(lib, remote, enableRtx, codecs).value;
            && IsSubsequence(out, codecs)
            && out != [] && !IsRtx(out[0].format)
            && forall c <- out :: IsRtx(c.format) ==>
                 exists m <- out :: !IsRtx(m.format) && Apt(c.format) == Some(m.payloadType)
  {
    hide IsRtx, Apt, Matched, Linked, AptsNameMedia, Kept, Sweep, IsSubsequence, FirstWithPt;
    var m := Matched(lib, remote, enableRtx, codecs, |codecs|);
    MatchedAptsNameMedia(lib, remote, enableRtx, codecs);
    SweepIsFilter(m);
    KeptIsSubsequence(lib, remote, enableRtx, codecs, m, |codecs|);
    assert codecs[..|codecs|] == codecs;
    var out := Kept(m, m);
    forall c <- out | IsRtx(c.format)
      ensures exists d <- out :: !IsRtx(d.format) && Apt(c.format) == Some(d.payloadType)
    {
      KeptOnly(m, m, c);
      HasPtIsFound(m, Apt(c.format));
      var d :| d in m && Some(d.payloadType) == Apt(c.format);
      AptIsMedia(m, c, d);
      KeptHasMedia(m, m, d);
    }
  }

  /** A wanted codec survives if it is media, or if some wanted codec has the payload type its apt names. */
  ghost predicate Survives(lib: H264, remote: seq<Capability>, enableRtx: bool, codecs: seq<Codec>, i: nat)
    requires i < |codecs|
  {
    && Wanted(lib, remote, enableRtx, codecs[i])
    && (IsRtx(codecs[i].format) ==> WantedPt(lib, remote, enableRtx, codecs, Apt(codecs[i].format)))
  }

  ghost predicate WantedPt(lib: H264, remote: seq<Capability>, enableRtx: bool, codecs: seq<Codec>, pt: Option<int>) {
    exists j :: 0 <= j < |codecs| && Wanted(lib, remote, enableRtx, codecs[j]) && Some(codecs[j].payloadType) == pt
  }

  ghost function Survivors(lib: H264, remote: seq<Capability>, enableRtx: bool, codecs: seq<Codec>, n: nat): seq<Codec>
    requires n <= |codecs|
  {
    if n == 0 then []
    else if Survives(lib, remote, enableRtx, codecs, n - 1) then
      Survivors(lib, remote, enableRtx, codecs, n - 1) + [Narrowed(lib, remote, enableRtx, codecs[n - 1])]
    else
      Survivors(lib, remote, enableRtx, codecs, n - 1)
  }

  /** A wanted codec stays among the matched ones exactly when it survives. */
  lemma StaysIffSurvives(lib: H264, remote: seq<Capability>, enableRtx: bool, codecs: seq<Codec>, i: nat)
    requires i < |codecs| && Wanted(lib, remote, enableRtx, codecs[i])
    ensures Stays(Matched(lib, remote, enableRtx, codecs, |codecs|), Narrowed(lib, remote, enableRtx, codecs[i]))
            <==> Survives(lib, remote, enableRtx, codecs, i)
  {
    hide Wanted, Narrowed, IsRtx, Apt, Matched, FirstWithPt;
    var m, c := Matched(lib, remote, enableRtx, codecs, |codecs|), Narrowed(lib, remote, enableRtx, codecs[i]);
    HasPtIsFound(m, Apt(c.format));
    if HasPt(m, Apt(c.format)) {
      var d :| d in m && Some(d.payloadType) == Apt(c.format);
      var j := MatchedFrom(lib, remote, enableRtx, codecs, |codecs|, d);
    }
    if WantedPt(lib, remote, enableRtx, codecs, Apt(c.format)) {
      var j :| 0 <= j < |codecs| && Wanted(lib, remote, enableRtx, codecs[j])
               && Some(codecs[j].payloadType) == Apt(c.format);
      MatchedHas(lib, remote, enableRtx, codecs, |codecs|, j);
    }
  }

  lemma {:induction false} KeptAreSurvivors(lib: H264, remote: seq<Capability>, enableRtx: bool, codecs: seq<Codec>,
                                            n: nat)
    requires n <= |codecs|
    ensures Kept(Matched(lib, remote, enableRtx, codecs, |codecs|), Matched(lib, remote, enableRtx, codecs, n))
            == Survivors(lib, remote, enableRtx, codecs, n)
  {
    hide Wanted, Narrowed, IsRtx, Stays, WantedPt;
    if n > 0 {
      var all := Matched(lib, remote, enableRtx, codecs, |codecs|);
      KeptAreSurvivors(lib, remote, enableRtx, codecs, n - 1);
      if Wanted(lib, remote, enableRtx, codecs[n - 1]) {
        StaysIffSurvives(lib, remote, enableRtx, codecs, n - 1);
        KeptSnoc(all, Matched(lib, remote, enableRtx, codecs, n - 1), Narrowed(lib, remote, enableRtx, codecs[n - 1]));
      }
    }
  }

  ghost predicate SupportsMedia(lib: H264, remote: seq<Capability>, codecs: seq<Codec>) {
    exists i :: 0 <= i < |codecs| && !IsRtx(codecs[i].format) && Supported(lib, remote, codecs[i])
  }

  /** Some supported media codec comes before every RTX codec that survives. */
  ghost predicate MediaLeads(lib: H264, remote: seq<Capability>, enableRtx: bool, codecs: seq<Codec>, n: nat)
    requires n <= |codecs|
  {
    exists i :: 0 <= i < n && !IsRtx(codecs[i].format) && Supported(lib, remote, codecs[i])
                && forall j :: 0 <= j < i && IsRtx(codecs[j].format) ==> !Survives(lib, remote, enableRtx, codecs, j)
  }

  lemma {:induction false} SurvivorsHead(lib: H264, remote: seq<Capability>, enableRtx: bool, codecs: seq<Codec>,
                                         n: nat)
    requires n <= |codecs|
    ensures Survivors(lib, remote, enableRtx, codecs, n) == [] <==>
            forall i :: 0 <= i < n ==> !Survives(lib, remote, enableRtx, codecs, i)
    ensures Survivors(lib, remote, enableRtx, codecs, n) != []
            && !IsRtx(Survivors(lib, remote, enableRtx, codecs, n)[0].format)
            <==> MediaLeads(lib, remote, enableRtx, codecs, n)
  {
    hide Narrowed, IsRtx, Supported, Apt, WantedPt;
    if n > 0 {
      SurvivorsHead(lib, remote, enableRtx, codecs, n - 1);
      if MediaLeads(lib, remote, enableRtx, codecs, n - 1) {
        var i :| 0 <= i < n - 1 && !IsRtx(codecs[i].format) && Supported(lib, remote, codecs[i])
                 && forall j :: 0 <= j < i && IsRtx(codecs[j].format) ==> !Survives(lib, remote, enableRtx, codecs, j);
        assert MediaLeads(lib, remote, enableRtx, codecs, n);
      }
    }
  }

  /**
   Exactly which codecs a consumer gets from a list of the pipeline: the survivors; and it fails exactly when no
   supported media codec comes before the RTX codecs that survive.
   */
  lemma ConsumerCodecsExact(lib: H264, remote: seq<Capability>, enableRtx: bool, codecs: seq<Codec>)
    requires AptsNameMedia(codecs)
    ensures ConsumerCodecs(lib, remote, enableRtx, codecs) ==
            if MediaLeads(lib, remote, enableRtx, codecs, |codecs|)
            then Some(Survivors(lib, remote, enableRtx, codecs, |codecs|)) else None
  {
    hide Matched, Survivors, IsRtx, Sweep, Kept, MediaLeads, AptsNameMedia;
    var m := Matched(lib, remote, enableRtx, codecs, |codecs|);
    MatchedAptsNameMedia(lib, remote, enableRtx, codecs);
    SweepIsFilter(m);
    KeptAreSurvivors(lib, remote, enableRtx, codecs, |codecs|);
    SurvivorsHead(lib, remote, enableRtx, codecs, |codecs|);
  }

  /** With distinct payload types it fails exactly when no media codec is supported. */
  lemma MediaLeadsWhenDistinct(lib: H264, remote: seq<Capability>, enableRtx: bool, codecs: seq<Codec>, n: nat)
    requires ConsumableShape(codecs) && DistinctPts(codecs) && n <= |codecs|
    ensures MediaLeads(lib, remote, enableRtx, codecs, n) <==> SupportsMedia(lib, remote, codecs[..n])
  {
    hide IsRtx, Supported, Apt, AptsNameMedia;
    if SupportsMedia(lib, remote, codecs[..n]) {
      var i := FirstMedia(lib, remote, codecs[..n]);
      forall j | 0 <= j < i && IsRtx(codecs[j].format) ensures !Survives(lib, remote, enableRtx, codecs, j) {
        assert Linked(codecs, j) && codecs[..n][j - 1] == codecs[j - 1];
      }
      assert codecs[..n][i] == codecs[i];
    }
    if MediaLeads(lib, remote, enableRtx, codecs, n) {
      var i :| 0 <= i < n && !IsRtx(codecs[i].format) && Supported(lib, remote, codecs[i]);
      assert codecs[..n][i] == codecs[i];
    }
  }

  lemma FirstMedia(lib: H264, remote: seq<Capability>, codecs: seq<Codec>) returns (i: nat)
    requires SupportsMedia(lib, remote, codecs)
    ensures i < |codecs| && !IsRtx(codecs[i].format) && Supported(lib, remote, codecs[i])
    ensures forall j :: 0 <= j < i && !IsRtx(codecs[j].format) ==> !Supported(lib, remote, codecs[j])
  {
    i := Find(codecs, (c: Codec) => !IsRtx(c.format) && Supported(lib, remote, c)).value;
  }

  lemma {:induction false} NothingMatched(lib: H264, remote: seq<Capability>, enableRtx: bool, codecs: seq<Codec>,
                                          n: nat)
    requires n <= |codecs| && forall i :: 0 <= i < n ==> !Supported(lib, remote, codecs[i])
    ensures Matched(lib, remote, enableRtx, codecs, n) == []
  {
    hide Supported;
    if n > 0 {
      NothingMatched(lib, remote, enableRtx, codecs, n - 1);
    }
  }

  /**
   canConsume says no to a consumer that would succeed exactly when an RTX codec is supported before any media
   codec is. For every list of codecs whatever.
   */
  lemma CanConsumeExact(lib: H264, remote: seq<Capability>, enableRtx: bool, codecs: seq<Codec>)
    ensures CanBeConsumed(lib, remote, codecs) <==>
            ConsumerCodecs(lib, remote, enableRtx, codecs).Some?
            && forall i :: 0 <= i < |codecs| && IsRtx(codecs[i].format) && Supported(lib, remote, codecs[i]) ==>
                 exists j :: 0 <= j < i && !IsRtx(codecs[j].format) && Supported(lib, remote, codecs[j])
  {
    hide IsRtx, Supported;
    var first := FirstSupportedCodec(lib, remote, codecs);
    if CanBeConsumed(lib, remote, codecs) {
      CanConsumeSound(lib, remote, enableRtx, codecs);
    } else if first.None? {
      NothingMatched(lib, remote, enableRtx, codecs, |codecs|);
    }
  }

  /** With a single media codec to offer, canConsume says yes exactly when a consumer would succeed. */
  lemma CanConsumeSingle(lib: H264, remote: seq<Capability>, enableRtx: bool, codecs: seq<Codec>)
    requires ConsumableShape(codecs)
    requires codecs != [] && forall i :: 0 < i < |codecs| ==> IsRtx(codecs[i].format)
    ensures CanBeConsumed(lib, remote, codecs) <==> ConsumerCodecs(lib, remote, enableRtx, codecs).Some?
  {
    hide ConsumerCodecs, IsRtx, Supported, AptsNameMedia, Survivors, Apt;
    assert Linked(codecs, 0);
    ConsumerCodecsExact(lib, remote, enableRtx, codecs);
    var first := FirstSupportedCodec(lib, remote, codecs);
  }

  /** The converse of CanConsumeSound fails: VP8 and VP9 are on offer and the endpoint takes RTX and VP9. */
  lemma CanConsumeIncomplete(lib: H264) returns (remote: seq<Capability>, codecs: seq<Codec>)
    ensures ConsumableShape(codecs) && DistinctPts(codecs)
    ensures !CanBeConsumed(lib, remote, codecs) && ConsumerCodecs(lib, remote, true, codecs).Some?
  {
    codecs := [Codec(VP8, 101, []), Codec(Rtx(101), 102, []), Codec(Vp9(0), 103, []), Codec(Rtx(103), 104, [])];
    remote := [Capability(Rtx(97), None, []), Capability(Vp9(0), None, [])];
    SampleKinds();
    SampleMatches(lib);
    hide IsRtx, Apt, Match, ConsumerCodecs, Vp9, Rtx, VP8;
    assert Match(lib, remote[0].format, codecs[1].format, true);
    assert Match(lib, remote[1].format, codecs[2].format, true);
    assert !Supported(lib, remote, codecs[0]) && Supported(lib, remote, codecs[1]) && Supported(lib, remote, codecs[2]);
    assert FirstSupportedCodec(lib, remote, codecs) == Some(1);
    assert codecs[..|codecs|] == codecs;
    MediaLeadsWhenDistinct(lib, remote, true, codecs, |codecs|);
    ConsumerCodecsExact(lib, remote, true, codecs);
  }

  // ----- What the remote endpoint and enableRtx decide -----

  /** The remote endpoint supports a codec exactly if it has a capability of the same media format. */
  lemma SupportedIff(lib: H264, remote: seq<Capability>, c: Codec)
    ensures Supported(lib, remote, c) <==>
            exists k :: 0 <= k < |remote| && SameMedia(lib, remote[k].format, c.format)
  {
    hide Match, SameMedia;
    forall k | 0 <= k < |remote| {
      MatchMeans(lib, remote[k].format, c.format);
    }
  }

  /**
   Which codecs survive: with RTX, supported media codecs and supported RTX codecs whose apt names a supported
   codec; without, supported media codecs only.
   */
  lemma SurvivesIff(lib: H264, remote: seq<Capability>, enableRtx: bool, codecs: seq<Codec>, i: nat)
    requires i < |codecs|
    ensures Survives(lib, remote, enableRtx, codecs, i) <==>
            && Supported(lib, remote, codecs[i])
            && (IsRtx(codecs[i].format) ==>
                  enableRtx && exists j :: 0 <= j < |codecs| && Supported(lib, remote, codecs[j])
                                           && Some(codecs[j].payloadType) == Apt(codecs[i].format))
  {
    hide IsRtx, Supported, Apt;
  }

  lemma {:induction false} SweepFrom(list: seq<Codec>, n: nat, c: Codec)
    requires n <= |list| && c in Sweep(list, n)
    ensures c in list
    decreases n
  {
    hide Stays;
    if n > 0 {
      if Stays(list, list[n - 1]) {
        SweepFrom(list, n - 1, c);
      } else {
        SweepFrom(list[..n - 1] + list[n..], n - 1, c);
      }
    }
  }

  /** Without RTX no codec of a consumer is RTX, whatever the consumable codecs. */
  lemma NoRtxWhenDisabled(lib: H264, remote: seq<Capability>, codecs: seq<Codec>, c: Codec)
    requires ConsumerCodecs(lib, remote, false, codecs).Some? && c in ConsumerCodecs(lib, remote, false, codecs).value
    ensures !IsRtx(c.format)
  {
    hide IsRtx, Sweep, Matched, Supported;
    var m := Matched(lib, remote, false, codecs, |codecs|);
    SweepFrom(m, |m|, c);
    var i := MatchedFrom(lib, remote, false, codecs, |codecs|, c);
  }

  lemma {:induction false} SurvivorsHas(lib: H264, remote: seq<Capability>, enableRtx: bool, codecs: seq<Codec>,
                                        n: nat, i: nat)
    requires i < n <= |codecs| && Survives(lib, remote, enableRtx, codecs, i)
    ensures Narrowed(lib, remote, enableRtx, codecs[i]) in Survivors(lib, remote, enableRtx, codecs, n)
  {
    hide Narrowed, Survives;
    if i < n - 1 {
      SurvivorsHas(lib, remote, enableRtx, codecs, n - 1, i);
    }
  }

  /** With RTX, a supported RTX codec whose apt names a supported codec is among the codecs of the consumer. */
  lemma RtxWhenEnabled(lib: H264, remote: seq<Capability>, codecs: seq<Codec>, i: nat, j: nat) returns (c: Codec)
    requires AptsNameMedia(codecs) && ConsumerCodecs(lib, remote, true, codecs).Some? && i < |codecs| && j < |codecs|
    requires IsRtx(codecs[i].format) && Supported(lib, remote, codecs[i])
    requires Supported(lib, remote, codecs[j]) && Apt(codecs[i].format) == Some(codecs[j].payloadType)
    ensures c in ConsumerCodecs(lib, remote, true, codecs).value && SameCodec(c, codecs[i])
  {
    hide IsRtx, Supported, Apt, ConsumerCodecs, AptsNameMedia, Survives, Survivors, MediaLeads;
    SurvivesIff(lib, remote, true, codecs, i);
    ConsumerCodecsExact(lib, remote, true, codecs);
    SurvivorsHas(lib, remote, true, codecs, |codecs|, i);
    c := Narrowed(lib, remote, true, codecs[i]);
  }

  /** The feedback of a consumer codec is the remote's for it, without plain nack when RTX is off. */
  lemma NarrowedFeedback(lib: H264, remote: seq<Capability>, enableRtx: bool, c: Codec, k: nat, fb: Feedback)
    requires k < |remote| && SameMedia(lib, remote[k].format, c.format)
    requires forall j :: 0 <= j < k ==> !SameMedia(lib, remote[j].format, c.format)
    ensures fb in Narrowed(lib, remote, enableRtx, c).rtcpFeedback <==>
            fb in remote[k].rtcpFeedback && (fb == Feedback("nack", "") ==> enableRtx)
  {
    hide Match, SameMedia;
    forall j | 0 <= j < |remote| {
      MatchMeans(lib, remote[j].format, c.format);
    }
    assert FirstCapability(lib, remote, c.format) == Some(k);
  }
}
