/** What the codecs of a router are, request by request and without an algorithm. */
module RouterRequests {
  import opened Wrappers
  import opened Codecs
  import opened RouterCapabilities

  /** Some codec has the payload type. */
  ghost predicate Taken(pt: int, codecs: seq<Codec>) {
    exists i :: 0 <= i < |codecs| && codecs[i].payloadType == pt
  }

  /** The first dynamic payload type that no codec has: 100 to 127 come before 96 to 99. */
  ghost predicate FirstFree(pt: int, codecs: seq<Codec>) {
    && 96 <= pt <= 127 && !Taken(pt, codecs)
    && (forall x :: 100 <= x <= 127 && (x < pt || pt < 100) ==> Taken(x, codecs))
    && (forall x :: 96 <= x < pt < 100 ==> Taken(x, codecs))
  }

  /** The supported codec is the first of the requested kind. */
  ghost predicate FirstOfKind(supported: seq<Capability>, q: nat, m: Capability) {
    && q < |supported| && SameKind(m.format, supported[q].format)
    && forall j :: 0 <= j < q ==> !SameKind(m.format, supported[j].format)
  }

  /**
   The codec stands for the request: the supported codec with the requested parameters over its own, under the
   requested payload type, else the fixed one of the supported codec, else the first free one.
   */
  ghost predicate Serves(s: Capability, m: Capability, c: Codec, before: seq<Codec>) {
    && c.format == s.format.(parameters := c.format.parameters) && c.rtcpFeedback == s.rtcpFeedback
    && (forall key :: Get(c.format.parameters, key) ==
                      if key in m.format.parameters then Get(m.format.parameters, key)
                      else Get(s.format.parameters, key))
    && (m.preferredPayloadType.Some? ==> Some(c.payloadType) == m.preferredPayloadType)
    && (m.preferredPayloadType.None? && s.preferredPayloadType.Some? ==> Some(c.payloadType) == s.preferredPayloadType)
    && (m.preferredPayloadType.None? && s.preferredPayloadType.None? ==> FirstFree(c.payloadType, before))
    && !Taken(c.payloadType, before)
  }

  /** The RTX codec that the router adds for a video codec. */
  ghost predicate Repairs(r: Codec, c: Codec, before: seq<Codec>) {
    && r == Codec(Format("video/rtx", c.format.clockRate, None, map["apt" := Num(c.payloadType)]), r.payloadType, [])
    && FirstFree(r.payloadType, before)
  }

  /** The codecs added last, from index n on, are those for the request. */
  ghost predicate EndsWith(supported: seq<Capability>, m: Capability, out: seq<Codec>, n: nat)
    requires n < |out|
  {
    && (exists q: nat :: FirstOfKind(supported, q, m) && Serves(supported[q], m, out[n], out[..n]))
    && (if IsVideo(out[n].format) then |out| == n + 2 && Repairs(out[n + 1], out[n], out[..n + 1]) else |out| == n + 1)
  }

  ghost predicate Built(supported: seq<Capability>, media: seq<Capability>, out: seq<Codec>)
    decreases |media|
  {
    if media == [] then out == []
    else
      exists n :: 0 <= n < |out| && EndsWith(supported, media[|media| - 1], out, n)
                  && Built(supported, media[..|media| - 1], out[..n])
  }

  // ----- The first free payload type -----

  lemma TakenIsUsed(codecs: seq<Codec>, pt: int)
    ensures Taken(pt, codecs) <==> pt in Used(codecs)
  {
    if pt in Used(codecs) {
      var c :| c in codecs && c.payloadType == pt;
      var i :| 0 <= i < |codecs| && codecs[i] == c;
    }
    if Taken(pt, codecs) {
      var i :| 0 <= i < |codecs| && codecs[i].payloadType == pt;
      assert codecs[i] in codecs;
    }
  }

  lemma {:induction false} WithoutHead(pool: seq<int>, used: set<int>, pt: int)
    ensures Without(pool, used) != [] && Without(pool, used)[0] == pt <==>
            exists i :: 0 <= i < |pool| && pool[i] == pt && pt !in used && forall j :: 0 <= j < i ==> pool[j] in used
  {
    if pool != [] {
      var rest := pool[1..];
      WithoutHead(rest, used, pt);
      if i :| 0 <= i < |rest| && rest[i] == pt && pt !in used && forall j :: 0 <= j < i ==> rest[j] in used {
        assert pool[i + 1] == pt;
        assert pool[0] in used ==> forall j :: 0 <= j < i + 1 ==> pool[j] in used;
      }
      if i :| 0 < i < |pool| && pool[i] == pt && pt !in used && forall j :: 0 <= j < i ==> pool[j] in used {
        assert rest[i - 1] == pt && forall j :: 0 <= j < i - 1 ==> rest[j] == pool[j + 1];
      }
    }
  }

  lemma DynamicAt(i: nat)
    requires i < 32
    ensures |DYNAMIC| == 32 && DYNAMIC[i] == if i < 28 then 100 + i else 68 + i
  {
    assert DYNAMIC[i] == if i < 28 then UpTo(100, 128)[i] else UpTo(96, 100)[i - 28];
  }

  /** The head of the free payload types is the first one free. */
  lemma FreeHeadIff(codecs: seq<Codec>, pt: int)
    ensures Free(codecs) != [] && Free(codecs)[0] == pt <==> FirstFree(pt, codecs)
  {
    hide DYNAMIC, Used;
    WithoutHead(DYNAMIC, Used(codecs), pt);
    forall x {
      TakenIsUsed(codecs, x);
    }
    forall i | 0 <= i < 32 {
      DynamicAt(i);
    }
    DynamicAt(0);
    if FirstFree(pt, codecs) {
      var i := if pt >= 100 then pt - 100 else pt - 68;
      assert DYNAMIC[i] == pt;
    }
    if i :| 0 <= i < 32 && DYNAMIC[i] == pt && pt !in Used(codecs)
            && forall j :: 0 <= j < i ==> DYNAMIC[j] in Used(codecs) {
      forall x | 100 <= x <= 127 && (x < pt || pt < 100) ensures Taken(x, codecs) {
        assert DYNAMIC[x - 100] == x;
      }
      forall x | 96 <= x < pt < 100 ensures Taken(x, codecs) {
        assert DYNAMIC[x - 68] == x;
      }
    }
  }

  // ----- One request -----

  lemma FirstOfKindIff(lib: H264, m: Capability, supported: seq<Capability>, q: nat)
    ensures FirstSupported(lib, m.format, supported) == Some(q) <==> FirstOfKind(supported, q, m)
    ensures FirstSupported(lib, m.format, supported).None? <==>
            forall j :: 0 <= j < |supported| ==> !SameKind(m.format, supported[j].format)
  {
    hide Match, SameKind;
    forall j | 0 <= j < |supported| {
      MatchMeans(lib, m.format, supported[j].format);
    }
  }

  lemma MergedIff(s: Capability, m: Capability, c: Codec)
    ensures c == Merged(s, m, c.payloadType) <==>
            && c.format == s.format.(parameters := c.format.parameters) && c.rtcpFeedback == s.rtcpFeedback
            && (forall key :: Get(c.format.parameters, key) ==
                              if key in m.format.parameters then Get(m.format.parameters, key)
                              else Get(s.format.parameters, key))
  {
    var p, q := c.format.parameters, s.format.parameters + m.format.parameters;
    if forall key :: Get(p, key) == if key in m.format.parameters then Get(m.format.parameters, key)
                                    else Get(s.format.parameters, key) {
      assert forall key :: Get(p, key) == Get(q, key);
      assert forall key :: key in p <==> Get(p, key).Some?;
      assert forall key :: key in q <==> Get(q, key).Some?;
      assert p == q;
    }
  }

  /** The codec serves the request exactly if it is the merged one under the chosen payload type, not taken yet. */
  lemma ServesIff(s: Capability, m: Capability, c: Codec, before: seq<Codec>)
    ensures Serves(s, m, c, before) <==>
            && Chosen(s, m, before) == Some(c.payloadType) && c == Merged(s, m, c.payloadType)
            && c.payloadType !in Used(before)
  {
    hide Merged, Free, Used, FirstFree, Taken, Get;
    MergedIff(s, m, c);
    FreeHeadIff(before, c.payloadType);
    TakenIsUsed(before, c.payloadType);
  }

  lemma AppendIff(s: Capability, m: Capability, c: Codec, before: seq<Codec>, out: seq<Codec>)
    requires c == Merged(s, m, c.payloadType) && c.payloadType !in Used(before)
    ensures Append(s, m, c.payloadType, before) == Ok(out) <==>
            && |out| > |before| && out[..|before|] == before && out[|before|] == c
            && (if IsVideo(c.format) then |out| == |before| + 2 && Repairs(out[|before| + 1], c, out[..|before| + 1])
                else |out| == |before| + 1)
  {
    hide Merged, Free, Used, FirstFree, IsVideo;
    var longer := before + [c];
    if |out| == |before| + 2 && out[..|before|] == before && out[|before|] == c {
      assert out == longer + [out[|before| + 1]] && out[..|before| + 1] == longer;
      FreeHeadIff(longer, out[|before| + 1].payloadType);
    } else if |out| == |before| + 1 && out[..|before|] == before && out[|before|] == c {
      assert out == longer;
    }
    if IsVideo(c.format) && Free(longer) != [] {
      FreeHeadIff(longer, Free(longer)[0]);
    }
  }

  lemma AddIff(lib: H264, supported: seq<Capability>, m: Capability, before: seq<Codec>, out: seq<Codec>)
    ensures AddCodec(lib, supported, m, before) == Ok(out) <==>
            |before| < |out| && out[..|before|] == before && EndsWith(supported, m, out, |before|)
  {
    hide FirstOfKind, Serves, Repairs, IsVideo, Merged, Chosen, Append, FirstSupported, Used;
    var first, n := FirstSupported(lib, m.format, supported), |before|;
    forall q: nat {
      FirstOfKindIff(lib, m, supported, q);
    }
    if first.Some? {
      FirstOfKindIff(lib, m, supported, first.value);
      var s := supported[first.value];
      if n < |out| && out[..n] == before {
        ServesIff(s, m, out[n], before);
        if Serves(s, m, out[n], before) {
          AppendIff(s, m, out[n], before, out);
        }
      }
      var pt := Chosen(s, m, before);
      if pt.Some? && Append(s, m, pt.value, before) == Ok(out) {
        AppendedCodec(s, m, pt.value, before, out);
      }
    }
  }

  lemma AppendedCodec(s: Capability, m: Capability, pt: int, before: seq<Codec>, out: seq<Codec>)
    requires Append(s, m, pt, before) == Ok(out)
    ensures |out| > |before| && out[..|before|] == before && out[|before|] == Merged(s, m, pt) && pt !in Used(before)
  {
    hide Merged, Free, Used, IsVideo;
  }

  /**
   Exactly which codecs a router has: those built request by request. If no list is built so, because a request
   is of no supported kind, or its payload type is taken, or none is free, the call fails.
   */
  lemma {:induction false} RouterCodecsIff(lib: H264, supported: seq<Capability>, media: seq<Capability>,
                                           out: seq<Codec>)
    ensures RouterCodecs(lib, supported, media) == Ok(out) <==> Built(supported, media, out)
    decreases |media|
  {
    hide AddCodec, EndsWith;
    if media != [] {
      var init, m := media[..|media| - 1], media[|media| - 1];
      var r := RouterCodecs(lib, supported, init);
      if r.Ok? && AddCodec(lib, supported, m, r.value) == Ok(out) {
        AddIff(lib, supported, m, r.value, out);
        RouterCodecsIff(lib, supported, init, r.value);
        assert out[..|r.value|] == r.value;
      }
      if n :| 0 <= n < |out| && EndsWith(supported, m, out, n) && Built(supported, init, out[..n]) {
        RouterCodecsIff(lib, supported, init, out[..n]);
        AddIff(lib, supported, m, out[..n], out);
      }
    }
  }

  /** Which error a request gets. */
  lemma RequestFails(lib: H264, supported: seq<Capability>, m: Capability, before: seq<Codec>, q: nat, pt: int)
    ensures AddCodec(lib, supported, m, before) == Err(UnsupportedCodec) <==>
            forall j :: 0 <= j < |supported| ==> !SameKind(m.format, supported[j].format)
    ensures FirstOfKind(supported, q, m) && Taken(pt, before)
            && (m.preferredPayloadType == Some(pt) ||
                (m.preferredPayloadType.None? && supported[q].preferredPayloadType == Some(pt))) ==>
            AddCodec(lib, supported, m, before) == Err(DuplicatedPayloadType(pt))
  {
    hide SameKind, FirstSupported, Taken, Used, Free, IsVideo, Merged;
    FirstOfKindIff(lib, m, supported, q);
    TakenIsUsed(before, pt);
  }
}
