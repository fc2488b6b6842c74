/** getProducerRtpParametersMapping: from a producer's payload types to the router's. */
module ProducerMapping {
  import opened Wrappers
  import opened Codecs
  import opened RouterCapabilities

  /** The TypeError thrown when an associated codec has no entry in the map yet is UndefinedAssociation. */
  datatype MappingError =
    | UnsupportedMedia(payloadType: int)
    | MissingMedia(payloadType: int)
    | UndefinedAssociation(payloadType: int)
    | NoRtx(payloadType: int)

  datatype Entry = Entry(payloadType: int, mappedPayloadType: int)

  /**
   The router codec that the producer codec at index i is mapped to. An RTX codec goes through the codec its
   apt names, which the second loop has only seen if it is a media codec or an earlier RTX codec.
   */
  function Target(lib: H264, codecs: seq<Codec>, caps: seq<Codec>, i: nat): (r: Result<nat, MappingError>)
    requires i < |codecs|
    ensures r.Ok? ==> r.value < |caps|
    decreases if IsRtx(codecs[i].format) then i + 1 else 0
  {
    var c := codecs[i];
    if !IsRtx(c.format) then
      match FirstMatch(lib, c.format, caps)
      case None => Err(UnsupportedMedia(c.payloadType))
      case Some(k) => Ok(k)
    else
      match FirstWithPt(codecs, Apt(c.format))
      case None => Err(MissingMedia(c.payloadType))
      case Some(j) =>
        if IsRtx(codecs[j].format) && j >= i then Err(UndefinedAssociation(c.payloadType))
        else
          match Target(lib, codecs, caps, j)
          case Err(e) => Err(e)
          case Ok(k) =>
            match FirstRtxFor(caps, caps[k].payloadType)
            case None => Err(NoRtx(caps[k].payloadType))
            case Some(rtx) => Ok(rtx)
  }

  ghost predicate Within(order: seq<nat>, n: nat) {
    forall a :: 0 <= a < |order| ==> order[a] < n
  }

  /** The indices below n of the codecs that are, or are not, RTX, in order. */
  function Indices(codecs: seq<Codec>, rtx: bool, n: nat): (r: seq<nat>)
    requires n <= |codecs|
    ensures Within(r, n)
  {
    if n == 0 then []
    else if IsRtx(codecs[n - 1].format) == rtx then Indices(codecs, rtx, n - 1) + [n - 1]
    else Indices(codecs, rtx, n - 1)
  }

  /** The insertion order of the map: media codecs first, then RTX codecs. */
  function Order(codecs: seq<Codec>): (r: seq<nat>)
    ensures Within(r, |codecs|)
  {
    Indices(codecs, false, |codecs|) + Indices(codecs, true, |codecs|)
  }

  lemma {:induction false} IndicesComplete(codecs: seq<Codec>, rtx: bool, n: nat, i: nat)
    requires i < n <= |codecs|
    ensures i in Indices(codecs, rtx, n) <==> IsRtx(codecs[i].format) == rtx
  {
    var init := Indices(codecs, rtx, n - 1);
    if i < n - 1 {
      IndicesComplete(codecs, rtx, n - 1, i);
    }
  }

  lemma {:induction false} IndicesIncrease(codecs: seq<Codec>, rtx: bool, n: nat)
    requires n <= |codecs|
    ensures forall a, b :: 0 <= a < b < |Indices(codecs, rtx, n)| ==>
            Indices(codecs, rtx, n)[a] < Indices(codecs, rtx, n)[b]
  {
    if n > 0 {
      IndicesIncrease(codecs, rtx, n - 1);
    }
  }

  lemma OrderComplete(codecs: seq<Codec>, i: nat)
    requires i < |codecs|
    ensures i in Order(codecs)
  {
    IndicesComplete(codecs, false, |codecs|, i);
    IndicesComplete(codecs, true, |codecs|, i);
  }

  /** The first codec, in the given order, that has no target. */
  function FirstBad(lib: H264, codecs: seq<Codec>, caps: seq<Codec>, order: seq<nat>): (r: Option<nat>)
    requires Within(order, |codecs|)
    ensures r.Some? ==> r.value < |order| && Target(lib, codecs, caps, order[r.value]).Err?
                        && forall a :: 0 <= a < r.value ==> Target(lib, codecs, caps, order[a]).Ok?
    ensures r.None? ==> forall a :: 0 <= a < |order| ==> Target(lib, codecs, caps, order[a]).Ok?
  {
    if order == [] then None
    else if Target(lib, codecs, caps, order[0]).Err? then Some(0)
    else
      match FirstBad(lib, codecs, caps, order[1..])
      case None => None
      case Some(a) => Some(a + 1)
  }

  function EntryOf(lib: H264, codecs: seq<Codec>, caps: seq<Codec>, i: nat): Entry
    requires i < |codecs| && Target(lib, codecs, caps, i).Ok?
  {
    Entry(codecs[i].payloadType, caps[Target(lib, codecs, caps, i).value].payloadType)
  }

  /** Specification of the codec mapping: an entry per codec, or the first error. */
  function MapCodecs(lib: H264, codecs: seq<Codec>, caps: seq<Codec>): (r: Result<seq<Entry>, MappingError>)
    ensures r.Ok? ==> |r.value| == |Order(codecs)|
    ensures r.Ok? ==> forall a :: 0 <= a < |r.value| ==>
      Target(lib, codecs, caps, Order(codecs)[a]).Ok? && r.value[a] == EntryOf(lib, codecs, caps, Order(codecs)[a])
  {
    var order := Order(codecs);
    match FirstBad(lib, codecs, caps, order)
    case Some(a) => Err(Target(lib, codecs, caps, order[a]).error)
    case None => Ok(seq(|order|, a requires 0 <= a < |order| => EntryOf(lib, codecs, caps, order[a])))
  }

  /** A mapping that succeeds maps every codec. */
  lemma AllMapped(lib: H264, codecs: seq<Codec>, caps: seq<Codec>)
    requires MapCodecs(lib, codecs, caps).Ok?
    ensures forall i :: 0 <= i < |codecs| ==> Target(lib, codecs, caps, i).Ok?
  {
    forall i | 0 <= i < |codecs| ensures Target(lib, codecs, caps, i).Ok? {
      OrderComplete(codecs, i);
    }
  }

  /** The producer codec after the match rewrote its profile-level-id in place. */
  function Rewritten(lib: H264, c: Codec, caps: seq<Codec>): (r: Codec)
    ensures r.payloadType == c.payloadType && r.format.mimeType == c.format.mimeType
    ensures IsRtx(c.format) ==> r == c
  {
    if IsRtx(c.format) then c
    else
      match FirstMatch(lib, c.format, caps)
      case None => c
      case Some(k) => c.(format := Modified(lib, c.format, caps[k].format))
  }

  function RewriteAll(lib: H264, codecs: seq<Codec>, caps: seq<Codec>): (r: seq<Codec>)
    ensures |r| == |codecs| && forall i :: 0 <= i < |codecs| ==> r[i] == Rewritten(lib, codecs[i], caps)
  {
    seq(|codecs|, i requires 0 <= i < |codecs| => Rewritten(lib, codecs[i], caps))
  }

  /** The error of the first codec that fails is the error of the mapping. */
  lemma MapFails(lib: H264, codecs: seq<Codec>, caps: seq<Codec>, done: seq<nat>, next: nat, rest: seq<nat>)
    requires Order(codecs) == done + [next] + rest
    requires next < |codecs| && Within(done, |codecs|)
    requires forall a :: 0 <= a < |done| ==> Target(lib, codecs, caps, done[a]).Ok?
    requires Target(lib, codecs, caps, next).Err?
    ensures MapCodecs(lib, codecs, caps) == Err(Target(lib, codecs, caps, next).error)
  {
    var order := Order(codecs);
    assert order[|done|] == next;
    assert forall a :: 0 <= a < |done| ==> order[a] == done[a];
    assert FirstBad(lib, codecs, caps, order) == Some(|done|);
  }

  /** The indices before n are a prefix of all of them. */
  lemma {:induction false} IndicesPrefix(codecs: seq<Codec>, rtx: bool, n: nat, m: nat) returns (rest: seq<nat>)
    requires n <= m <= |codecs|
    ensures Indices(codecs, rtx, m) == Indices(codecs, rtx, n) + rest
  {
    if n == m {
      rest := [];
    } else {
      rest := IndicesPrefix(codecs, rtx, n, m - 1);
      rest := rest + (if IsRtx(codecs[m - 1].format) == rtx then [m - 1] else []);
    }
  }

  /** The map under construction: which codecs are in it, in insertion order, and their router codecs. */
  ghost predicate Filled(lib: H264, codecs: seq<Codec>, caps: seq<Codec>, inserted: seq<nat>, capOf: map<nat, nat>) {
    && Within(inserted, |codecs|)
    && (forall a :: 0 <= a < |inserted| ==>
          inserted[a] in capOf && Target(lib, codecs, caps, inserted[a]) == Ok(capOf[inserted[a]]))
    && (forall i <- capOf :: i in inserted)
  }

  lemma FilledEmpty(lib: H264, codecs: seq<Codec>, caps: seq<Codec>)
    ensures Filled(lib, codecs, caps, [], map[])
  {}

  lemma FilledMore(lib: H264, codecs: seq<Codec>, caps: seq<Codec>, inserted: seq<nat>, capOf: map<nat, nat>, i: nat,
                   k: nat)
    requires Filled(lib, codecs, caps, inserted, capOf)
    requires i < |codecs| && Target(lib, codecs, caps, i) == Ok(k)
    ensures Filled(lib, codecs, caps, inserted + [i], capOf[i := k])
  {
    forall j <- capOf[i := k] ensures j in inserted + [i] {
      if j != i {
        assert j in capOf && j in inserted;
      }
    }
  }

  /** The first media codec that fails decides the error. */
  lemma MediaFails(lib: H264, codecs: seq<Codec>, caps: seq<Codec>, n: nat, capOf: map<nat, nat>)
    requires n < |codecs| && !IsRtx(codecs[n].format)
    requires Filled(lib, codecs, caps, Indices(codecs, false, n), capOf)
    requires Target(lib, codecs, caps, n).Err?
    ensures MapCodecs(lib, codecs, caps) == Err(Target(lib, codecs, caps, n).error)
  {
    var inserted := Indices(codecs, false, n);
    var rest := IndicesPrefix(codecs, false, n + 1, |codecs|);
    MapFails(lib, codecs, caps, inserted, n, rest + Indices(codecs, true, |codecs|));
  }

  /** With every media codec mapped, the first RTX codec that fails decides the error. */
  lemma RtxFails(lib: H264, codecs: seq<Codec>, caps: seq<Codec>, n: nat, inserted: seq<nat>, capOf: map<nat, nat>)
    requires n < |codecs| && IsRtx(codecs[n].format)
    requires inserted == Indices(codecs, false, |codecs|) + Indices(codecs, true, n)
    requires Filled(lib, codecs, caps, inserted, capOf)
    requires Target(lib, codecs, caps, n).Err?
    ensures MapCodecs(lib, codecs, caps) == Err(Target(lib, codecs, caps, n).error)
  {
    hide Target;
    var rest := IndicesPrefix(codecs, true, n + 1, |codecs|);
    MapFails(lib, codecs, caps, inserted, n, rest);
  }

  lemma MediaStep(lib: H264, codecs: seq<Codec>, caps: seq<Codec>, n: nat)
    requires n < |codecs| && !IsRtx(codecs[n].format)
    ensures match FirstMatch(lib, codecs[n].format, caps)
            case None => Target(lib, codecs, caps, n) == Err(UnsupportedMedia(codecs[n].payloadType))
            case Some(k) =>
              && Target(lib, codecs, caps, n) == Ok(k)
              && Rewritten(lib, codecs[n], caps) ==
                 codecs[n].(format := Modified(lib, codecs[n].format, caps[k].format))
  {}

  /** The first loop: media codecs, rewriting them in place. */
  method MatchMedia(lib: H264, codecs: seq<Codec>, caps: seq<Codec>)
    returns (failed: Option<MappingError>, codecs': seq<Codec>, inserted: seq<nat>, capOf: map<nat, nat>)
    ensures failed.Some? ==> MapCodecs(lib, codecs, caps) == Err(failed.value)
    ensures failed.None? ==> codecs' == RewriteAll(lib, codecs, caps)
    ensures failed.None? ==> inserted == Indices(codecs, false, |codecs|)
    ensures failed.None? ==> Filled(lib, codecs, caps, inserted, capOf)
  {
    hide Target, Rewritten, FirstMatch, Modified, MapCodecs, Filled;
    codecs', capOf, inserted := codecs, map[], [];
    FilledEmpty(lib, codecs, caps);
    for n := 0 to |codecs|
      invariant |codecs'| == |codecs|
      invariant forall i :: 0 <= i < n ==> codecs'[i] == Rewritten(lib, codecs[i], caps)
      invariant forall i :: n <= i < |codecs| ==> codecs'[i] == codecs[i]
      invariant inserted == Indices(codecs, false, n)
      invariant Filled(lib, codecs, caps, inserted, capOf)
    {
      if IsRtx(codecs'[n].format) {
        continue;
      }
      MediaStep(lib, codecs, caps, n);
      var k := FirstMatch(lib, codecs'[n].format, caps);
      if k.None? {
        MediaFails(lib, codecs, caps, n, capOf);
        return Some(UnsupportedMedia(codecs'[n].payloadType)), codecs', inserted, capOf;
      }
      FilledMore(lib, codecs, caps, inserted, capOf, n, k.value);
      codecs' := codecs'[n := codecs'[n].(format := Modified(lib, codecs'[n].format, caps[k.value].format))];
      capOf, inserted := capOf[n := k.value], inserted + [n];
    }
    failed := None;
  }

  /** The rewrite moves no payload type. */
  lemma SameFirst(lib: H264, codecs: seq<Codec>, caps: seq<Codec>, pt: Option<int>)
    ensures FirstWithPt(RewriteAll(lib, codecs, caps), pt) == FirstWithPt(codecs, pt)
  {
    hide Rewritten, IsRtx;
    var rewritten := RewriteAll(lib, codecs, caps);
    var a, b := FirstWithPt(rewritten, pt), FirstWithPt(codecs, pt);
    if a.Some? {
      assert rewritten[a.value].payloadType == codecs[a.value].payloadType;
    }
    if b.Some? {
      assert rewritten[b.value].payloadType == codecs[b.value].payloadType;
    }
  }

  /** One round of the second loop, over the rewritten codecs: the router codec of an RTX codec. */
  method MatchRtx(lib: H264, ghost codecs: seq<Codec>, codecs': seq<Codec>, caps: seq<Codec>, ghost inserted: seq<nat>,
                  capOf: map<nat, nat>, n: nat)
    returns (r: Result<nat, MappingError>)
    requires codecs' == RewriteAll(lib, codecs, caps) && n < |codecs'| && IsRtx(codecs'[n].format)
    requires Filled(lib, codecs, caps, inserted, capOf)
    requires inserted == Indices(codecs, false, |codecs|) + Indices(codecs, true, n)
    ensures r == Target(lib, codecs, caps, n)
  {
    hide FirstMatch, Modified, IsRtx, Rewritten, Apt, FirstRtxFor;
    RewriteKeepsKind(lib, codecs[n], caps);
    assert codecs'[n] == codecs[n];
    var j := FirstWithPt(codecs', Apt(codecs'[n].format));
    SameFirst(lib, codecs, caps, Apt(codecs[n].format));
    if j.None? {
      return Err(MissingMedia(codecs'[n].payloadType));
    }
    InsertedIff(codecs, n, j.value);
    assert j.value in capOf <==> j.value in inserted;
    if j.value !in capOf {
      return Err(UndefinedAssociation(codecs'[n].payloadType));
    }
    var cap := caps[capOf[j.value]];
    var rtx := FirstRtxFor(caps, cap.payloadType);
    return if rtx.None? then Err(NoRtx(cap.payloadType)) else Ok(rtx.value);
  }

  /** What the map holds when the second loop is at n: the media codecs, and the RTX codecs before n. */
  lemma InsertedIff(codecs: seq<Codec>, n: nat, j: nat)
    requires n <= |codecs| && j < |codecs|
    ensures j in Indices(codecs, false, |codecs|) + Indices(codecs, true, n) <==> !IsRtx(codecs[j].format) || j < n
  {
    hide IsRtx;
    IndicesComplete(codecs, false, |codecs|, j);
    if j < n {
      IndicesComplete(codecs, true, n, j);
    }
  }

  /** The rewrite makes no codec RTX, nor any RTX codec media. */
  lemma RewriteKeepsKind(lib: H264, c: Codec, caps: seq<Codec>)
    ensures IsRtx(Rewritten(lib, c, caps).format) == IsRtx(c.format)
  {}

  /** The last loop: the map's entries in insertion order. */
  method ListEntries(lib: H264, ghost codecs: seq<Codec>, codecs': seq<Codec>, caps: seq<Codec>, inserted: seq<nat>,
                     capOf: map<nat, nat>)
    returns (entries: seq<Entry>)
    requires codecs' == RewriteAll(lib, codecs, caps)
    requires inserted == Order(codecs) && Filled(lib, codecs, caps, inserted, capOf)
    ensures MapCodecs(lib, codecs, caps) == Ok(entries)
  {
    hide Target, IsRtx, Rewritten, Order;
    entries := [];
    for a := 0 to |inserted|
      invariant |entries| == a
      invariant forall b :: 0 <= b < a ==> entries[b] == EntryOf(lib, codecs, caps, inserted[b])
    {
      var i := inserted[a];
      entries := entries + [Entry(codecs'[i].payloadType, caps[capOf[i]].payloadType)];
    }
    assert FirstBad(lib, codecs, caps, Order(codecs)).None?;
    assert entries == MapCodecs(lib, codecs, caps).value;
  }

  /** The two loops over the codecs, filling a map keyed by codec object, and the loop over the map. */
  method GetProducerRtpParametersMapping(lib: H264, codecs: seq<Codec>, caps: seq<Codec>)
    returns (r: Result<seq<Entry>, MappingError>, codecs': seq<Codec>)
    ensures r == MapCodecs(lib, codecs, caps)
    ensures r.Ok? ==> codecs' == RewriteAll(lib, codecs, caps)
  {
    hide Target, MapCodecs, Filled, Rewritten;
    var failed, inserted;
    var capOf: map<nat, nat>;
    failed, codecs', inserted, capOf := MatchMedia(lib, codecs, caps);
    if failed.Some? {
      return Err(failed.value), codecs';
    }
    for n := 0 to |codecs|
      invariant inserted == Indices(codecs, false, |codecs|) + Indices(codecs, true, n)
      invariant Filled(lib, codecs, caps, inserted, capOf)
    {
      if !IsRtx(codecs'[n].format) {
        continue;
      }
      var k := MatchRtx(lib, codecs, codecs', caps, inserted, capOf, n);
      if k.Err? {
        RtxFails(lib, codecs, caps, n, inserted, capOf);
        return Err(k.error), codecs';
      }
      FilledMore(lib, codecs, caps, inserted, capOf, n, k.value);
      capOf, inserted := capOf[n := k.value], inserted + [n];
    }
    var entries := ListEntries(lib, codecs, codecs', caps, inserted, capOf);
    r := Ok(entries);
  }

  // ----- What the mapping guarantees to the later stages -----

  ghost predicate HasSameMedia(lib: H264, f: Format, caps: seq<Codec>) {
    exists k :: 0 <= k < |caps| && SameMedia(lib, f, caps[k].format)
  }

  /** A media codec is mapped to the first router codec of the same media format, and fails exactly if there is none. */
  lemma MediaMapsIff(lib: H264, codecs: seq<Codec>, caps: seq<Codec>, i: nat)
    requires i < |codecs| && !IsRtx(codecs[i].format)
    ensures Target(lib, codecs, caps, i).Ok? <==> HasSameMedia(lib, codecs[i].format, caps)
    ensures Target(lib, codecs, caps, i).Err? ==>
      Target(lib, codecs, caps, i).error == UnsupportedMedia(codecs[i].payloadType)
    ensures Target(lib, codecs, caps, i).Ok? ==>
      var k := Target(lib, codecs, caps, i).value;
      && SameMedia(lib, codecs[i].format, caps[k].format)
      && forall j :: 0 <= j < k ==> !SameMedia(lib, codecs[i].format, caps[j].format)
  {
    hide Match, SameMedia, IsRtx;
    forall k | 0 <= k < |caps| {
      MatchMeans(lib, codecs[i].format, caps[k].format);
    }
  }

  /** If some media codec has no router codec of its media format, the first such codec is the error. */
  lemma UnsupportedFails(lib: H264, codecs: seq<Codec>, caps: seq<Codec>, i: nat)
    requires i < |codecs| && !IsRtx(codecs[i].format) && !HasSameMedia(lib, codecs[i].format, caps)
    requires forall j :: 0 <= j < i && !IsRtx(codecs[j].format) ==> HasSameMedia(lib, codecs[j].format, caps)
    ensures MapCodecs(lib, codecs, caps) == Err(UnsupportedMedia(codecs[i].payloadType))
  {
    hide Target, IsRtx, MapCodecs, HasSameMedia;
    var done := Indices(codecs, false, i);
    var rest := IndicesPrefix(codecs, false, i + 1, |codecs|);
    MediaMapsIff(lib, codecs, caps, i);
    forall a | 0 <= a < |done| ensures Target(lib, codecs, caps, done[a]).Ok? {
      IndicesComplete(codecs, false, i, done[a]);
      MediaMapsIff(lib, codecs, caps, done[a]);
    }
    MapFails(lib, codecs, caps, done, i, rest + Indices(codecs, true, |codecs|));
  }

  /** An RTX codec is mapped exactly if the first codec its apt names is a media codec that maps to a video codec. */
  lemma RtxMapsIff(lib: H264, codecs: seq<Codec>, caps: seq<Codec>, i: nat)
    requires RouterShape(caps) && i < |codecs| && IsRtx(codecs[i].format)
    ensures Target(lib, codecs, caps, i).Ok? <==>
            var j := FirstWithPt(codecs, Apt(codecs[i].format));
            && j.Some? && !IsRtx(codecs[j.value].format) && Target(lib, codecs, caps, j.value).Ok?
            && IsVideo(caps[Target(lib, codecs, caps, j.value).value].format)
  {
    hide IsRtx, IsVideo, Apt, FirstMatch, RouterShape;
    if Target(lib, codecs, caps, i).Ok? {
      var j := RtxTarget(lib, codecs, caps, i);
    }
    var first := FirstWithPt(codecs, Apt(codecs[i].format));
    if first.Some? && !IsRtx(codecs[first.value].format) && Target(lib, codecs, caps, first.value).Ok? {
      MediaTarget(lib, codecs, caps, first.value);
      RtxFoundIff(caps, Target(lib, codecs, caps, first.value).value);
    }
  }

  lemma RtxFoundIff(caps: seq<Codec>, k: nat)
    requires RouterShape(caps) && k < |caps| && !IsRtx(caps[k].format)
    ensures FirstRtxFor(caps, caps[k].payloadType).Some? <==> IsVideo(caps[k].format)
  {
    hide IsRtx, IsVideo, Apt;
    var found := FirstRtxFor(caps, caps[k].payloadType);
    if found.Some? {
      RtxIsNext(caps, k, found.value);
    }
    assert IsVideo(caps[k].format) ==> k + 1 < |caps| && RtxFollows(caps[k], caps[k + 1]);
  }

  /** What the mapping leaves in a codec: the negotiated profile level in an H.264 codec, and nothing else changes. */
  lemma RewrittenMeans(lib: H264, codecs: seq<Codec>, caps: seq<Codec>, i: nat)
    requires MapCodecs(lib, codecs, caps).Ok? && i < |codecs|
    ensures Target(lib, codecs, caps, i).Ok?
    ensures var c, c' := codecs[i], RewriteAll(lib, codecs, caps)[i];
            var p, p' := c.format.parameters, c'.format.parameters;
            && c' == c.(format := c.format.(parameters := p'))
            && (IsRtx(c.format) || !IsH264(c.format) ==> c' == c)
            && (forall key :: key != "profile-level-id" ==> SameParameter(p, p', key))
            && (!IsRtx(c.format) && IsH264(c.format) ==>
                  match lib.answer(p, caps[Target(lib, codecs, caps, i).value].format.parameters)
                  case Level(id) => Get(p', "profile-level-id") == if id == "" then None else Some(Str(id))
                  case _ => "profile-level-id" !in p')
  {
    AllMapped(lib, codecs, caps);
    hide IsRtx, IsH264, MapCodecs, FirstMatch;
  }

  /** An RTX codec of the router is found exactly one place after its media codec. */
  lemma RtxIsNext(caps: seq<Codec>, k: nat, rtx: nat)
    requires RouterShape(caps) && k < |caps|
    requires FirstRtxFor(caps, caps[k].payloadType) == Some(rtx)
    ensures rtx == k + 1 && RtxFollows(caps[k], caps[rtx])
  {
    assert rtx > 0 && RtxFollows(caps[rtx - 1], caps[rtx]);
  }

  /** A media codec is mapped to a media codec of the router. */
  lemma MediaTarget(lib: H264, codecs: seq<Codec>, caps: seq<Codec>, i: nat)
    requires i < |codecs| && !IsRtx(codecs[i].format) && Target(lib, codecs, caps, i).Ok?
    ensures !IsRtx(caps[Target(lib, codecs, caps, i).value].format)
  {
    var k := Target(lib, codecs, caps, i).value;
    MatchSameKind(codecs[i].format, caps[k].format);
  }

  /**
   If an RTX codec is mapped then its apt names a media codec, and it is mapped to the RTX codec the router
   placed after that media codec's image.
   */
  lemma {:induction false} RtxTarget(lib: H264, codecs: seq<Codec>, caps: seq<Codec>, i: nat)
    returns (j: nat)
    requires RouterShape(caps)
    requires i < |codecs| && IsRtx(codecs[i].format) && Target(lib, codecs, caps, i).Ok?
    ensures FirstWithPt(codecs, Apt(codecs[i].format)) == Some(j)
    ensures !IsRtx(codecs[j].format) && Target(lib, codecs, caps, j).Ok?
    ensures Target(lib, codecs, caps, i).value == Target(lib, codecs, caps, j).value + 1
    ensures RtxFollows(caps[Target(lib, codecs, caps, j).value], caps[Target(lib, codecs, caps, i).value])
  {
    j := FirstWithPt(codecs, Apt(codecs[i].format)).value;
    var k := Target(lib, codecs, caps, j).value;
    RtxIsNext(caps, k, Target(lib, codecs, caps, i).value);
    if IsRtx(codecs[j].format) {
      var j' := RtxTarget(lib, codecs, caps, j);
      // caps[k] would then be RTX and media at once
      assert false;
    }
  }

  /** entries.find(entry => entry.payloadType === pt) */
  function Lookup(entries: seq<Entry>, pt: int): (r: Option<int>)
    ensures r.None? <==> forall a :: 0 <= a < |entries| ==> entries[a].payloadType != pt
    ensures r.Some? ==> exists a :: 0 <= a < |entries| && entries[a] == Entry(pt, r.value)
                                    && forall b :: 0 <= b < a ==> entries[b].payloadType != pt
  {
    match Find(entries, (e: Entry) => e.payloadType == pt)
    case None => None
    case Some(a) =>
      assert entries[a] == Entry(pt, entries[a].mappedPayloadType);
      Some(entries[a].mappedPayloadType)
  }

  /**
   Looking up the payload type of a media codec gives the image of the first media codec with that payload
   type: an RTX codec that reuses a media payload type never shadows it.
   */
  lemma LookupMedia(lib: H264, codecs: seq<Codec>, caps: seq<Codec>, pt: int, j: nat)
    requires MapCodecs(lib, codecs, caps).Ok?
    requires j < |codecs| && !IsRtx(codecs[j].format) && codecs[j].payloadType == pt
    requires forall i :: 0 <= i < j && !IsRtx(codecs[i].format) ==> codecs[i].payloadType != pt
    ensures Target(lib, codecs, caps, j).Ok?
    ensures Lookup(MapCodecs(lib, codecs, caps).value, pt) ==
            Some(caps[Target(lib, codecs, caps, j).value].payloadType)
  {
    hide IsRtx, Target, FirstBad;
    var entries, order := MapCodecs(lib, codecs, caps).value, Order(codecs);
    var media := Indices(codecs, false, |codecs|);
    AllMapped(lib, codecs, caps);
    IndicesComplete(codecs, false, |codecs|, j);
    IndicesIncrease(codecs, false, |codecs|);
    var a :| 0 <= a < |media| && media[a] == j;
    assert order[a] == j;
    assert entries[a].payloadType == pt;
    forall b | 0 <= b < a ensures entries[b].payloadType != pt {
      assert order[b] == media[b] && media[b] < media[a];
      IndicesComplete(codecs, false, |codecs|, media[b]);
    }
  }

  /**
   The mapping commutes with apt, for every parameter list that maps: looking up an RTX codec's apt gives the
   payload type that the mapped RTX codec of the router has as its own apt.
   */
  lemma MappingCommutesWithApt(lib: H264, codecs: seq<Codec>, caps: seq<Codec>, i: nat)
    requires RouterShape(caps) && MapCodecs(lib, codecs, caps).Ok?
    requires i < |codecs| && IsRtx(codecs[i].format)
    ensures Target(lib, codecs, caps, i).Ok? && Apt(codecs[i].format).Some?
    ensures Lookup(MapCodecs(lib, codecs, caps).value, Apt(codecs[i].format).value).Some?
    ensures Apt(caps[Target(lib, codecs, caps, i).value].format) ==
            Lookup(MapCodecs(lib, codecs, caps).value, Apt(codecs[i].format).value)
  {
    AllMapped(lib, codecs, caps);
    var j := RtxTarget(lib, codecs, caps, i);
    LookupMedia(lib, codecs, caps, codecs[j].payloadType, j);
  }

  ghost predicate DistinctPts(codecs: seq<Codec>) {
    forall i, j :: 0 <= i < j < |codecs| ==> codecs[i].payloadType != codecs[j].payloadType
  }

  /** With distinct payload types every codec, RTX included, is found under its own payload type. */
  lemma MappingTotal(lib: H264, codecs: seq<Codec>, caps: seq<Codec>, i: nat)
    requires MapCodecs(lib, codecs, caps).Ok? && DistinctPts(codecs) && i < |codecs|
    ensures Target(lib, codecs, caps, i).Ok?
    ensures Lookup(MapCodecs(lib, codecs, caps).value, codecs[i].payloadType) ==
            Some(caps[Target(lib, codecs, caps, i).value].payloadType)
  {
    var entries, order := MapCodecs(lib, codecs, caps).value, Order(codecs);
    OrderComplete(codecs, i);
    AllMapped(lib, codecs, caps);
    var a :| 0 <= a < |order| && order[a] == i;
    assert entries[a].payloadType == codecs[i].payloadType;
    var b :| 0 <= b < |entries|
      && entries[b] == Entry(codecs[i].payloadType, Lookup(entries, codecs[i].payloadType).value);
    assert order[b] in order;
    assert order[b] == i;
  }
}
