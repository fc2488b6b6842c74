/** Dropping the RTX codecs whose media codec is gone: the TypeScript splice, the Rust two passes, and the filter. */
module RtxSanitizing {
  import opened Wrappers
  import opened Codecs
  import opened ProducerMapping
  import opened Consumable

  /** The codec stays: it is a media codec, or a codec of the list has the payload type its apt names. */
  predicate Stays(list: seq<Codec>, c: Codec) {
    !IsRtx(c.format) || FirstWithPt(list, Apt(c.format)).Some?
  }

  /** The simple filter: the codecs of the list that stay, judged by the whole list. */
  function Kept(all: seq<Codec>, list: seq<Codec>): seq<Codec> {
    if list == [] then []
    else
      Kept(all, list[..|list| - 1]) + if Stays(all, list[|list| - 1]) then [list[|list| - 1]] else []
  }

  /** The TypeScript loop from index n - 1 down, splicing in place: later removals are visible to earlier codecs. */
  function Sweep(list: seq<Codec>, n: nat): seq<Codec>
    requires n <= |list|
    decreases n
  {
    if n == 0 then list
    else if Stays(list, list[n - 1]) then Sweep(list, n - 1)
    else Sweep(list[..n - 1] + list[n..], n - 1)
  }

  /** The backward loop of the TypeScript port. */
  method SanitizeBackward(codecs: seq<Codec>) returns (list: seq<Codec>, rtxSupported: bool)
    ensures list == Sweep(codecs, |codecs|)
    ensures rtxSupported <==> exists c <- list :: IsRtx(c.format)
  {
    hide IsRtx, FirstWithPt, Apt;
    list, rtxSupported := codecs, false;
    var idx := |list|;
    while idx > 0
      invariant 0 <= idx <= |list|
      invariant Sweep(list, idx) == Sweep(codecs, |codecs|)
      invariant rtxSupported <==> exists c <- list[idx..] :: IsRtx(c.format)
    {
      idx := idx - 1;
      ghost var tail := list[idx + 1..];
      assert list[idx..] == [list[idx]] + tail;
      if IsRtx(list[idx].format) {
        if FirstWithPt(list, Apt(list[idx].format)).Some? {
          assert list[idx] in list[idx..];
          rtxSupported := true;
        } else {
          list := list[..idx] + list[idx + 1..];
          assert list[idx..] == tail;
        }
      }
    }
    assert list[0..] == list;
  }

  /** The indices below n of the codecs that do not stay. */
  function Useless(codecs: seq<Codec>, n: nat): (r: seq<nat>)
    requires n <= |codecs|
    ensures Within(r, n)
  {
    if n == 0 then []
    else if Stays(codecs, codecs[n - 1]) then Useless(codecs, n - 1)
    else Useless(codecs, n - 1) + [n - 1]
  }

  ghost predicate Ascending(indices: seq<nat>, n: nat) {
    Within(indices, n) && forall p, q :: 0 <= p < q < |indices| ==> indices[p] < indices[q]
  }

  lemma {:induction false} UselessAscends(codecs: seq<Codec>, n: nat)
    requires n <= |codecs|
    ensures Ascending(Useless(codecs, n), n)
  {
    hide Stays;
    if n > 0 {
      UselessAscends(codecs, n - 1);
    }
  }

  function Remove(list: seq<Codec>, d: nat): seq<Codec>
    requires d < |list|
  {
    list[..d] + list[d + 1..]
  }

  /** Removing the listed indices from the last to the first. */
  ghost function RemoveBack(list: seq<Codec>, indices: seq<nat>): seq<Codec>
    requires Ascending(indices, |list|)
    decreases |indices|
  {
    if indices == [] then list
    else RemoveBack(Remove(list, indices[|indices| - 1]), indices[..|indices| - 1])
  }

  lemma RemoveBackSnoc(list: seq<Codec>, indices: seq<nat>, d: nat)
    requires Ascending(indices + [d], |list|)
    ensures d < |list| && Ascending(indices, |list| - 1)
    ensures RemoveBack(list, indices + [d]) == RemoveBack(Remove(list, d), indices)
  {
    var all := indices + [d];
    assert all[..|all| - 1] == indices && all[|indices|] == d;
    forall p | 0 <= p < |indices| ensures indices[p] < |list| - 1 {
      assert all[p] < all[|indices|];
    }
    forall p, q | 0 <= p < q < |indices| ensures indices[p] < indices[q] {
      assert all[p] < all[q];
    }
  }

  lemma KeptSnoc(all: seq<Codec>, list: seq<Codec>, c: Codec)
    ensures Kept(all, list + [c]) == if Stays(all, c) then Kept(all, list) + [c] else Kept(all, list)
  {
    assert (list + [c])[..|list + [c]| - 1] == list;
  }

  /** Removing the useless codecs among the first n leaves those that stay, and the rest untouched. */
  lemma {:induction false} RemoveBackKept(codecs: seq<Codec>, n: nat, tail: seq<Codec>)
    requires n <= |codecs| && Ascending(Useless(codecs, n), n + |tail|)
    ensures RemoveBack(codecs[..n] + tail, Useless(codecs, n)) == Kept(codecs, codecs[..n]) + tail
  {
    hide Stays, Ascending, RemoveBack, Kept;
    if n == 0 {
      RemoveBackNone(codecs, tail);
    } else {
      var c, before := codecs[n - 1], codecs[..n - 1];
      assert codecs[..n] == before + [c];
      KeptSnoc(codecs, before, c);
      if Stays(codecs, c) {
        RemoveBackKept(codecs, n - 1, [c] + tail);
        assert codecs[..n] + tail == before + ([c] + tail);
        assert Kept(codecs, codecs[..n]) + tail == Kept(codecs, before) + ([c] + tail);
      } else {
        RemoveBackSnoc(codecs[..n] + tail, Useless(codecs, n - 1), n - 1);
        assert Remove(codecs[..n] + tail, n - 1) == before + tail;
        RemoveBackKept(codecs, n - 1, tail);
      }
    }
  }

  lemma RemoveBackNone(codecs: seq<Codec>, tail: seq<Codec>)
    ensures RemoveBack(codecs[..0] + tail, []) == Kept(codecs, codecs[..0]) + tail
  {}

  /** The two passes of the Rust port: collect the useless indices, then remove them from the last to the first. */
  method SanitizeTwoPass(codecs: seq<Codec>) returns (list: seq<Codec>, rtxSupported: bool)
    ensures list == Kept(codecs, codecs)
    ensures rtxSupported <==> exists c <- codecs :: IsRtx(c.format) && Stays(codecs, c)
  {
    hide IsRtx, FirstWithPt, Apt;
    var removeCodecs: seq<nat> := [];
    rtxSupported := false;
    for n := 0 to |codecs|
      invariant removeCodecs == Useless(codecs, n)
      invariant rtxSupported <==> exists c <- codecs[..n] :: IsRtx(c.format) && Stays(codecs, c)
    {
      assert codecs[..n + 1] == codecs[..n] + [codecs[n]];
      if IsRtx(codecs[n].format) {
        if FirstWithPt(codecs, Apt(codecs[n].format)).Some? {
          assert codecs[n] in codecs[..n + 1];
          rtxSupported := true;
        } else {
          removeCodecs := removeCodecs + [n];
        }
      }
    }
    assert codecs[..|codecs|] == codecs;
    list := RemoveIndices(codecs, removeCodecs);
  }

  /** The second pass. */
  method RemoveIndices(codecs: seq<Codec>, indices: seq<nat>) returns (list: seq<Codec>)
    requires indices == Useless(codecs, |codecs|)
    ensures list == Kept(codecs, codecs)
  {
    hide Stays, Useless, Kept;
    list := codecs;
    var m := |indices|;
    UselessAscends(codecs, |codecs|);
    assert indices[..m] == indices;
    while m > 0
      invariant 0 <= m <= |indices|
      invariant Ascending(indices[..m], |list|)
      invariant RemoveBack(list, indices[..m]) == RemoveBack(codecs, indices)
    {
      m := m - 1;
      assert indices[..m + 1][..m] == indices[..m];
      list := Remove(list, indices[m]);
    }
    RemoveBackKept(codecs, |codecs|, []);
    assert codecs[..|codecs|] + [] == codecs == codecs[..|codecs|];
    assert Kept(codecs, codecs) + [] == Kept(codecs, codecs);
  }

  // ----- The backward splice against the filter -----

  /** Every media codec of the list with the payload type survives the filter, wherever it stands. */
  lemma {:induction false} KeptHasMedia(all: seq<Codec>, list: seq<Codec>, c: Codec)
    requires c in list && Stays(all, c)
    ensures c in Kept(all, list)
  {
    hide Stays;
    var init, last := list[..|list| - 1], list[|list| - 1];
    assert list == init + [last];
    KeptSnoc(all, init, last);
    if c in init {
      KeptHasMedia(all, init, c);
    }
  }

  lemma {:induction false} KeptOnly(all: seq<Codec>, list: seq<Codec>, c: Codec)
    requires c in Kept(all, list)
    ensures c in list && Stays(all, c)
  {
    hide Stays;
    var init, last := list[..|list| - 1], list[|list| - 1];
    assert list == init + [last];
    KeptSnoc(all, init, last);
    if c in Kept(all, init) {
      KeptOnly(all, init, c);
    }
  }

  ghost predicate HasPt(list: seq<Codec>, pt: Option<int>) {
    exists c <- list :: Some(c.payloadType) == pt
  }

  lemma HasPtIsFound(list: seq<Codec>, pt: Option<int>)
    ensures FirstWithPt(list, pt).Some? <==> HasPt(list, pt)
  {
    var found := FirstWithPt(list, pt);
    if found.Some? {
      assert list[found.value] in list;
    }
  }

  lemma AptIsMedia(codecs: seq<Codec>, c: Codec, m: Codec)
    requires AptsNameMedia(codecs) && c in codecs && m in codecs
    requires IsRtx(c.format) && Apt(c.format) == Some(m.payloadType)
    ensures !IsRtx(m.format)
  {
    hide IsRtx, Apt;
    var i :| 0 <= i < |codecs| && codecs[i] == c;
    var j :| 0 <= j < |codecs| && codecs[j] == m;
  }

  /**
   If some codec has the payload type that an RTX codec's apt names, there is one that the backward loop still
   finds when it comes to the RTX codec: one that is not behind it, or one that stays.
   */
  ghost predicate Grounded(codecs: seq<Codec>, i: nat)
    requires i < |codecs|
  {
    IsRtx(codecs[i].format) && HasPt(codecs, Apt(codecs[i].format)) ==>
      exists j :: 0 <= j < |codecs| && Some(codecs[j].payloadType) == Apt(codecs[i].format)
                  && (j <= i || Stays(codecs, codecs[j]))
  }

  ghost predicate AllGrounded(codecs: seq<Codec>) {
    forall i :: 0 <= i < |codecs| ==> Grounded(codecs, i)
  }

  /** The list the loop sees at index n - 1 when everything behind it was judged as the filter does. */
  ghost function Seen(codecs: seq<Codec>, n: nat): seq<Codec>
    requires n <= |codecs|
  {
    codecs[..n] + Kept(codecs, codecs[n..])
  }

  lemma SeenHas(codecs: seq<Codec>, n: nat, pt: Option<int>)
    requires n <= |codecs|
    ensures HasPt(Seen(codecs, n), pt) <==>
            exists j :: 0 <= j < |codecs| && Some(codecs[j].payloadType) == pt && (j < n || Stays(codecs, codecs[j]))
  {
    hide Stays, Kept;
    var front, tail := codecs[..n], Kept(codecs, codecs[n..]);
    if HasPt(front + tail, pt) {
      var m: Codec :| m in front + tail && Some(m.payloadType) == pt;
      if m in front {
        var j :| 0 <= j < n && codecs[j] == m;
      } else {
        KeptOnly(codecs, codecs[n..], m);
        var j :| 0 <= j < |codecs| - n && codecs[n..][j] == m;
        assert codecs[n + j] == m;
      }
    }
    if j :| 0 <= j < |codecs| && Some(codecs[j].payloadType) == pt && (j < n || Stays(codecs, codecs[j])) {
      if j < n {
        assert front[j] in front + tail;
      } else {
        assert codecs[n..][j - n] == codecs[j];
        KeptHasMedia(codecs, codecs[n..], codecs[j]);
        assert codecs[j] in front + tail;
      }
    }
  }

  /** The loop judges the codec at n - 1 as the filter does exactly when it is grounded. */
  lemma JudgedIff(codecs: seq<Codec>, n: nat)
    requires 0 < n <= |codecs|
    ensures Stays(Seen(codecs, n), codecs[n - 1]) ==> Stays(codecs, codecs[n - 1])
    ensures Grounded(codecs, n - 1) <==> (Stays(Seen(codecs, n), codecs[n - 1]) <==> Stays(codecs, codecs[n - 1]))
  {
    hide IsRtx, Apt, Kept, FirstWithPt, Seen;
    var apt := Apt(codecs[n - 1].format);
    HasPtIsFound(Seen(codecs, n), apt);
    HasPtIsFound(codecs, apt);
    SeenHas(codecs, n, apt);
    if HasPt(Seen(codecs, n), apt) {
      var j :| 0 <= j < |codecs| && Some(codecs[j].payloadType) == apt;
      assert codecs[j] in codecs;
    }
  }

  /** Down to an index behind which all are grounded, the loop has done what the filter does. */
  lemma {:induction false} SweepDownTo(codecs: seq<Codec>, n: nat)
    requires n <= |codecs| && forall i :: n <= i < |codecs| ==> Grounded(codecs, i)
    ensures Sweep(codecs, |codecs|) == Sweep(Seen(codecs, n), n)
    decreases |codecs| - n
  {
    hide Stays, Kept, Grounded;
    if n == |codecs| {
      assert codecs[n..] == [] && codecs[..n] + [] == codecs;
      assert Kept(codecs, []) == [] by { KeptNone(codecs); }
    } else {
      SweepDownTo(codecs, n + 1);
      var list, c := Seen(codecs, n + 1), codecs[n];
      JudgedIff(codecs, n + 1);
      KeptCons(codecs, c, codecs[n + 1..]);
      assert codecs[n..] == [c] + codecs[n + 1..] && list[n] == c;
      if Stays(codecs, c) {
        assert list == Seen(codecs, n);
      } else {
        assert list[..n] + list[n + 1..] == Seen(codecs, n);
      }
    }
  }

  lemma KeptNone(all: seq<Codec>)
    ensures Kept(all, []) == []
  {}

  lemma {:induction false} KeptAppend(all: seq<Codec>, a: seq<Codec>, b: seq<Codec>)
    ensures Kept(all, a + b) == Kept(all, a) + Kept(all, b)
  {
    hide Stays;
    if b == [] {
      assert a + b == a;
    } else {
      var init, last := b[..|b| - 1], b[|b| - 1];
      assert a + b == (a + init) + [last] && b == init + [last];
      KeptAppend(all, a, init);
      KeptSnoc(all, a + init, last);
      KeptSnoc(all, init, last);
    }
  }

  lemma StaysMore(codecs: seq<Codec>, list: seq<Codec>, c: Codec)
    requires (forall d <- list :: d in codecs) && Stays(list, c)
    ensures Stays(codecs, c)
  {
    hide IsRtx, Apt, FirstWithPt;
    HasPtIsFound(list, Apt(c.format));
    HasPtIsFound(codecs, Apt(c.format));
  }

  /** What the filter drops the loop drops too. */
  lemma {:induction false} SweepNoLonger(codecs: seq<Codec>, n: nat, tail: seq<Codec>)
    requires n <= |codecs| && forall c <- tail :: c in codecs
    ensures |Sweep(codecs[..n] + tail, n)| <= |Kept(codecs, codecs[..n])| + |tail|
  {
    hide Stays, Kept;
    if n > 0 {
      var c, list := codecs[n - 1], codecs[..n] + tail;
      assert codecs[..n] == codecs[..n - 1] + [c] && list[n - 1] == c;
      KeptSnoc(codecs, codecs[..n - 1], c);
      if Stays(list, c) {
        StaysMore(codecs, list, c);
        assert list == codecs[..n - 1] + ([c] + tail);
        SweepNoLonger(codecs, n - 1, [c] + tail);
      } else {
        assert list[..n - 1] + list[n..] == codecs[..n - 1] + tail;
        SweepNoLonger(codecs, n - 1, tail);
      }
    }
  }

  /** A codec that is not grounded, with only grounded ones behind it, is dropped by the loop alone. */
  lemma SweepDropsMore(codecs: seq<Codec>, i: nat)
    requires i < |codecs| && !Grounded(codecs, i) && forall j :: i < j < |codecs| ==> Grounded(codecs, j)
    ensures |Sweep(codecs, |codecs|)| < |Kept(codecs, codecs)|
  {
    hide Stays, Kept, Grounded;
    var c, tail, list := codecs[i], Kept(codecs, codecs[i + 1..]), Seen(codecs, i + 1);
    SweepDownTo(codecs, i + 1);
    JudgedIff(codecs, i + 1);
    assert list[i] == c && list[..i] + list[i + 1..] == codecs[..i] + tail;
    forall d <- tail ensures d in codecs {
      KeptOnly(codecs, codecs[i + 1..], d);
    }
    SweepNoLonger(codecs, i, tail);
    assert codecs == codecs[..i] + ([c] + codecs[i + 1..]);
    KeptAppend(codecs, codecs[..i], [c] + codecs[i + 1..]);
    KeptCons(codecs, c, codecs[i + 1..]);
  }

  lemma {:induction false} LastUngrounded(codecs: seq<Codec>, n: nat) returns (i: nat)
    requires n <= |codecs| && !AllGrounded(codecs) && forall j :: n <= j < |codecs| ==> Grounded(codecs, j)
    ensures i < |codecs| && !Grounded(codecs, i) && forall j :: i < j < |codecs| ==> Grounded(codecs, j)
  {
    hide Grounded;
    if Grounded(codecs, n - 1) {
      i := LastUngrounded(codecs, n - 1);
    } else {
      i := n - 1;
    }
  }

  lemma {:induction false} KeptCons(all: seq<Codec>, c: Codec, list: seq<Codec>)
    ensures Kept(all, [c] + list) == (if Stays(all, c) then [c] else []) + Kept(all, list)
  {
    hide Stays, Kept;
    KeptAppend(all, [c], list);
    KeptSnoc(all, [], c);
    KeptNone(all);
    assert [] + [c] == [c];
  }

  /** Exactly when the TypeScript loop and the Rust passes, which always compute the filter, agree. */
  lemma SweepIsFilterIff(codecs: seq<Codec>)
    ensures Sweep(codecs, |codecs|) == Kept(codecs, codecs) <==> AllGrounded(codecs)
  {
    hide Stays, Kept, Grounded;
    if AllGrounded(codecs) {
      SweepDownTo(codecs, 0);
      assert codecs[..0] + Kept(codecs, codecs[0..]) == Kept(codecs, codecs);
    } else {
      var i := LastUngrounded(codecs, |codecs|);
      SweepDropsMore(codecs, i);
    }
  }

  /** They do on every list in which no apt names an RTX codec, so on every list the pipeline produces. */
  lemma SweepIsFilter(codecs: seq<Codec>)
    requires AptsNameMedia(codecs)
    ensures Sweep(codecs, |codecs|) == Kept(codecs, codecs)
  {
    hide IsRtx, Apt, Kept, Sweep, FirstWithPt, AptsNameMedia;
    forall i | 0 <= i < |codecs| ensures Grounded(codecs, i) {
      if IsRtx(codecs[i].format) && HasPt(codecs, Apt(codecs[i].format)) {
        var m :| m in codecs && Some(m.payloadType) == Apt(codecs[i].format);
        AptIsMedia(codecs, codecs[i], m);
        var j :| 0 <= j < |codecs| && codecs[j] == m;
        assert Stays(codecs, codecs[j]);
      }
    }
    SweepIsFilterIff(codecs);
  }

  /** Without that invariant the two ports differ: an RTX codec linked only to a later RTX codec that is dropped. */
  lemma PortsDiffer() returns (codecs: seq<Codec>)
    ensures Sweep(codecs, |codecs|) == [] && |Kept(codecs, codecs)| == 1
  {
    var a := Codec(Format("video/rtx", 90000, None, map["apt" := Num(3)]), 2, []);
    var b := Codec(Format("video/rtx", 90000, None, map["apt" := Num(99)]), 3, []);
    codecs := [a, b];
    assert Lower("video/rtx")[5..] == "/rtx";
    assert IsRtx(a.format) && IsRtx(b.format) && Apt(a.format) == Some(3) && Apt(b.format) == Some(99);
    assert !Stays(codecs, b);
    assert codecs[..1] + codecs[2..] == [a];
    assert !Stays([a], a);
    assert [a][..0] + [a][1..] == [];
    assert Stays(codecs, a) by { HasPtIsFound(codecs, Some(3)); assert b in codecs; }
    assert codecs == [a] + [b] && [a] == [] + [a];
    KeptSnoc(codecs, [a], b);
    KeptSnoc(codecs, [], a);
  }
}
