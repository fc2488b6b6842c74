/** A few concrete codecs, for the inputs on which a property of the pipeline fails. */
module SampleCodecs {
  import opened Wrappers
  import opened Codecs

  const VP8: Format := Format("video/VP8", 90000, None, map[])

  function Vp9(profile: int): Format {
    Format("video/VP9", 90000, None, map["profile-id" := Num(profile)])
  }

  function Rtx(apt: int): Format {
    Format("video/rtx", 90000, None, map["apt" := Num(apt)])
  }

  lemma SampleNames()
    ensures Lower("video/VP8") == "video/vp8" && Lower("video/VP9") == "video/vp9" && Lower("video/rtx") == "video/rtx"
  {}

  lemma SampleKinds()
    ensures !IsRtx(VP8) && forall n :: !IsRtx(Vp9(n)) && IsRtx(Rtx(n)) && Apt(Rtx(n)) == Some(n)
    ensures IsVideo(VP8) && forall n :: IsVideo(Vp9(n))
  {
    SampleNames();
    assert "video/vp8"[5..] == "/vp8" && "video/vp9"[5..] == "/vp9" && "video/rtx"[5..] == "/rtx";
    assert "/vp8"[1] == 'v' && "/vp9"[1] == 'v' && "/rtx"[1] == 'r';
    assert "video/vp8"[..6] == "video/" && "video/vp9"[..6] == "video/";
  }

  lemma SampleMatches(lib: H264)
    ensures forall m, n :: Match(lib, Rtx(m), Rtx(n), true)
    ensures forall m, n :: Match(lib, Vp9(m), Vp9(n), true) <==> m == n
    ensures forall n, strict :: !Match(lib, Rtx(n), VP8, strict) && !Match(lib, VP8, Rtx(n), strict)
    ensures forall n, strict :: !Match(lib, Vp9(n), VP8, strict) && !Match(lib, VP8, Vp9(n), strict)
    ensures forall m, n, strict :: !Match(lib, Rtx(m), Vp9(n), strict) && !Match(lib, Vp9(n), Rtx(m), strict)
  {
    SampleNames();
    assert "video/vp8"[8] == '8' && "video/vp9"[8] == '9' && "video/rtx"[8] == 'x';
  }

  /** RTX goes by the subtype, in any case, with something before it and nothing behind. */
  lemma RtxByName()
    ensures IsRtxMime("audio/rtx") && IsRtxMime("video/RTX") && !IsRtxMime("/rtx") && !IsRtxMime("video/rtx2")
  {
    assert Lower("audio/rtx")[5..] == "/rtx" && Lower("video/RTX")[5..] == "/rtx";
    assert Lower("video/rtx2")[6..][3] == '2' && "/rtx"[3] == 'x';
  }

  /** Video goes by the type, in any case, and needs a subtype. */
  lemma VideoByName(f: Format)
    ensures f.mimeType == "VIDEO/x" ==> IsVideo(f)
    ensures f.mimeType == "video/" || f.mimeType == "audio/opus" ==> !IsVideo(f)
  {
    assert Lower("VIDEO/x")[..6] == "video/" && Lower("audio/opus")[..6][0] == 'a' && "video/"[0] == 'v';
  }

  lemma H264ByName(f: Format)
    ensures f.mimeType == "video/H264" || f.mimeType == "video/h264-SVC" ==> IsH264(f)
    ensures f.mimeType == "video/H265" ==> !IsH264(f)
  {
    assert Lower("video/H264") == "video/h264" && Lower("video/h264-SVC") == "video/h264-svc";
    assert Lower("video/H265")[9] == '5' && "video/h264"[9] == '4' && |"video/h264-svc"| == 14;
  }
}
