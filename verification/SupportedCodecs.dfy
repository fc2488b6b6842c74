/** The table of supported codecs, and the facts about it that the payload-type allocator takes for granted. */
module SupportedCodecs {
  import opened Wrappers
  import opened Codecs
  import opened RouterCapabilities
  import opened SampleCodecs

  const CC := Feedback("transport-cc", "")
  const NACK := Feedback("nack", "")
  const VIDEO_FEEDBACK :=
    [NACK, Feedback("nack", "pli"), Feedback("ccm", "fir"), Feedback("goog-remb", ""), CC]

  function Audio(mime: string, clockRate: int, channels: int, pt: Option<int>, fbs: seq<Feedback>): Capability {
    Capability(Format(mime, clockRate, Some(channels), map[]), pt, fbs)
  }

  function Opus(channels: int, mapping: string, streams: int, coupled: int): Capability {
    Capability(
      Format("audio/multiopus", 48000, Some(channels),
             map["channel_mapping" := Str(mapping), "num_streams" := Num(streams), "coupled_streams" := Num(coupled)]),
      None, [NACK, CC])
  }

  function Video(mime: string, parameters: Parameters): Capability {
    Capability(Format(mime, 90000, None, parameters), None, VIDEO_FEEDBACK)
  }

  const AUDIO: seq<Capability> :=
    [Audio("audio/opus", 48000, 2, None, [NACK, CC]),
     Opus(4, "0,1,2,3", 2, 2),
     Opus(6, "0,4,1,2,3,5", 4, 2),
     Opus(8, "0,6,1,2,3,4,5,7", 5, 3),
     Audio("audio/PCMU", 8000, 1, Some(0), [CC]),
     Audio("audio/PCMA", 8000, 1, Some(8), [CC]),
     Audio("audio/ISAC", 32000, 1, None, [CC]),
     Audio("audio/ISAC", 16000, 1, None, [CC]),
     Audio("audio/G722", 8000, 1, Some(9), [CC]),
     Audio("audio/iLBC", 8000, 1, None, [CC]),
     Audio("audio/SILK", 24000, 1, None, [CC]),
     Audio("audio/SILK", 16000, 1, None, [CC]),
     Audio("audio/SILK", 12000, 1, None, [CC]),
     Audio("audio/SILK", 8000, 1, None, [CC])]

  const PLAIN: seq<Capability> :=
    [Audio("audio/CN", 32000, 1, Some(13), []),
     Audio("audio/CN", 16000, 1, Some(13), []),
     Audio("audio/CN", 8000, 1, Some(13), []),
     Audio("audio/telephone-event", 48000, 1, None, []),
     Audio("audio/telephone-event", 32000, 1, None, []),
     Audio("audio/telephone-event", 16000, 1, None, []),
     Audio("audio/telephone-event", 8000, 1, None, [])]

  const VIDEO: seq<Capability> :=
    [Video("video/VP8", map[]),
     Video("video/VP9", map[]),
     Video("video/H264", map["level-asymmetry-allowed" := Num(1)]),
     Video("video/H264-SVC", map["level-asymmetry-allowed" := Num(1)]),
     Video("video/H265", map["level-asymmetry-allowed" := Num(1)])]

  const SUPPORTED: seq<Capability> := AUDIO + PLAIN + VIDEO

  ghost predicate Harmless(s: Capability) {
    var m := s.format.mimeType;
    && |m| >= 1 && LowerChar(m[|m| - 1]) != 'x'
    && (s.preferredPayloadType.Some? ==> s.preferredPayloadType.value < 96)
  }

  lemma NotRtx(s: Capability)
    requires Harmless(s)
    ensures !IsRtx(s.format)
    ensures s.preferredPayloadType.Some? ==> s.preferredPayloadType.value !in DYNAMIC
  {
    var m := s.format.mimeType;
    if |m| >= 5 {
      assert Lower(m)[|m| - 4..][3] == LowerChar(m[|m| - 1]);
    }
    DynamicFrom96();
  }

  lemma DynamicFrom96()
    ensures forall pt <- DYNAMIC :: 96 <= pt <= 127
  {
    forall i | 0 <= i < |DYNAMIC| ensures 96 <= DYNAMIC[i] <= 127 {
      assert DYNAMIC[i] == if i < 28 then UpTo(100, 128)[i] else UpTo(96, 100)[i - 28];
    }
  }

  lemma AudioHarmless()
    ensures forall s <- AUDIO :: Harmless(s)
  {}

  lemma PlainHarmless()
    ensures forall s <- PLAIN :: Harmless(s)
  {}

  lemma VideoHarmless()
    ensures forall s <- VIDEO :: Harmless(s)
  {}

  /** The table meets what GenerateRouterRtpCapabilities requires of it. */
  lemma SupportedIsValid()
    ensures ValidSupported(SUPPORTED)
  {
    hide AUDIO, PLAIN, VIDEO, Harmless, IsRtx, DYNAMIC;
    AudioHarmless();
    PlainHarmless();
    VideoHarmless();
    forall s <- SUPPORTED
      ensures !IsRtx(s.format) && (s.preferredPayloadType.Some? ==> s.preferredPayloadType.value !in DYNAMIC)
    {
      NotRtx(s);
    }
  }

  ghost predicate StartsWith(s: Capability, c: char) {
    s.format.mimeType != "" && s.format.mimeType[0] == c
  }

  lemma AudioNames()
    ensures forall i :: 0 <= i < |AUDIO| ==> StartsWith(AUDIO[i], 'a')
  {}

  lemma PlainNames()
    ensures forall i :: 0 <= i < |PLAIN| ==> StartsWith(PLAIN[i], 'a')
  {}

  lemma NotAudio(lib: H264, f: Format, s: Capability)
    requires StartsWith(s, 'a') && f.mimeType != "" && f.mimeType[0] == 'v'
    ensures !Match(lib, f, s.format, false)
  {
    hide MatchParameters;
    assert Lower(f.mimeType)[0] == 'v' && Lower(s.format.mimeType)[0] == 'a';
  }

  /** Any VP9 profile is supported, by the entry without parameters. */
  lemma Vp9Supported(lib: H264, profile: int)
    ensures var k := FirstSupported(lib, Vp9(profile), SUPPORTED);
            k.Some? && SUPPORTED[k.value] == Video("video/VP9", map[])
  {
    hide AUDIO, PLAIN, StartsWith, Match;
    var f, n := Vp9(profile), |AUDIO| + |PLAIN|;
    AudioNames();
    PlainNames();
    forall i | 0 <= i < n ensures !Match(lib, f, SUPPORTED[i].format, false) {
      assert SUPPORTED[i] == if i < |AUDIO| then AUDIO[i] else PLAIN[i - |AUDIO|];
      NotAudio(lib, f, SUPPORTED[i]);
    }
    assert SUPPORTED[n] == VIDEO[0] && SUPPORTED[n + 1] == VIDEO[1];
    Vp9Matches(lib, profile);
  }

  lemma Vp9Matches(lib: H264, profile: int)
    ensures !Match(lib, Vp9(profile), Video("video/VP8", map[]).format, false)
    ensures Match(lib, Vp9(profile), Video("video/VP9", map[]).format, false)
  {
    SampleNames();
    assert "video/vp8"[8] == '8' && "video/vp9"[8] == '9';
    assert "video/vp9"[0] != "audio/multiopus"[0];
  }
}
