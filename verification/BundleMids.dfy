/** MID numbering in the downstream offer: the a=mid values against the BUNDLE group. */
module BundleMids {

  datatype Kind = Audio | Video

  /** The numbers lo, lo + 1, ..., lo + n - 1. */
  function Range(lo: nat, n: nat): (r: seq<nat>)
    ensures |r| == n && forall i :: 0 <= i < n ==> r[i] == lo + i
  {
    seq(n, i requires 0 <= i => lo + i)
  }

  ghost function Count(consumers: seq<Kind>, k: Kind): nat {
    if consumers == [] then 0
    else (if consumers[|consumers| - 1] == k then 1 else 0) + Count(consumers[..|consumers| - 1], k)
  }

  lemma {:induction false} CountAll(consumers: seq<Kind>)
    ensures Count(consumers, Audio) + Count(consumers, Video) == |consumers|
  {
    if consumers != [] {
      CountAll(consumers[..|consumers| - 1]);
    }
  }

  ghost function Repeat(mid: nat, n: nat): seq<nat> {
    if n == 0 then [] else Repeat(mid, n - 1) + [mid]
  }

  /** The mids of one remote user: every audio consumer adds a section, a video consumer replaces the one before. */
  ghost function UserMids(consumers: seq<Kind>, i: nat): seq<nat> {
    Repeat(2 * i, Count(consumers, Audio)) + if Count(consumers, Video) > 0 then [2 * i + 1] else []
  }

  ghost function Mids(users: seq<seq<Kind>>, i: nat): seq<nat>
    decreases |users|
  {
    if users == [] then [] else UserMids(users[0], i) + Mids(users[1..], i + 1)
  }

  ghost function Total(users: seq<seq<Kind>>): nat {
    if users == [] then 0 else |users[0]| + Total(users[1..])
  }

  lemma {:induction false} MidsAppend(a: seq<seq<Kind>>, b: seq<seq<Kind>>, i: nat)
    ensures Mids(a + b, i) == Mids(a, i) + Mids(b, i + |a|)
    decreases |a|
  {
    hide UserMids;
    if a == [] {
      assert a + b == b;
    } else {
      assert (a + b)[1..] == a[1..] + b && (a + b)[0] == a[0];
      MidsAppend(a[1..], b, i + 1);
      assert UserMids(a[0], i) + (Mids(a[1..], i + 1) + Mids(b, i + |a|)) ==
             (UserMids(a[0], i) + Mids(a[1..], i + 1)) + Mids(b, i + |a|);
    }
  }

  lemma {:induction false} TotalAppend(a: seq<seq<Kind>>, b: seq<seq<Kind>>)
    ensures Total(a + b) == Total(a) + Total(b)
  {
    if a == [] {
      assert a + b == b;
    } else {
      assert (a + b)[1..] == a[1..] + b;
      TotalAppend(a[1..], b);
    }
  }

  /** The loop over one remote user's consumers, in whatever order the map is ranged over. */
  method UserSections(consumers: seq<Kind>, i: nat) returns (mids: seq<nat>)
    ensures mids == UserMids(consumers, i)
  {
    var audio, video: seq<nat> := [], [];
    for n := 0 to |consumers|
      invariant audio == Repeat(2 * i, Count(consumers[..n], Audio))
      invariant video == if Count(consumers[..n], Video) > 0 then [2 * i + 1] else []
    {
      assert consumers[..n + 1][..n] == consumers[..n];
      if consumers[n] == Audio {
        audio := audio + [2 * i];
      } else {
        video := [2 * i + 1];
      }
    }
    assert consumers[..|consumers|] == consumers;
    return audio + video;
  }

  /** GenerateDownOfferSdp: the mids in m-line order, and the BUNDLE list. */
  method GenerateMids(users: seq<seq<Kind>>) returns (mids: seq<nat>, bundle: seq<nat>)
    ensures mids == Mids(users, 0) && bundle == Range(0, Total(users))
  {
    var midSize := 0;
    for n := 0 to |users|
      invariant midSize == Total(users[..n])
    {
      assert users[..n + 1] == users[..n] + [users[n]];
      TotalAppend(users[..n], [users[n]]);
      midSize := midSize + |users[n]|;
    }
    assert users[..|users|] == users;
    bundle := Range(0, midSize);
    mids := [];
    for i := 0 to |users|
      invariant mids == Mids(users[..i], 0)
    {
      assert users[..i + 1] == users[..i] + [users[i]];
      MidsAppend(users[..i], [users[i]], 0);
      assert Mids([users[i]], i) == UserMids(users[i], i) + [] by { assert [users[i]][1..] == []; }
      var sections := UserSections(users[i], i);
      mids := mids + sections;
    }
  }

  /** One audio and one video consumer, in either order. */
  ghost predicate IsPair(consumers: seq<Kind>) {
    Count(consumers, Audio) == 1 && Count(consumers, Video) == 1
  }

  ghost predicate AllEmpty(users: seq<seq<Kind>>) {
    forall j :: 0 <= j < |users| ==> users[j] == []
  }

  /** Pairs, then at most one user with a single audio consumer, then users without consumers. */
  ghost predicate Tidy(users: seq<seq<Kind>>) {
    users == []
    || (IsPair(users[0]) && Tidy(users[1..]))
    || ((users[0] == [Audio] || users[0] == []) && AllEmpty(users[1..]))
  }

  lemma {:induction false} EmptyTotal(users: seq<seq<Kind>>)
    ensures Total(users) == 0 <==> AllEmpty(users)
  {
    if users != [] {
      var rest := users[1..];
      EmptyTotal(rest);
      assert AllEmpty(users) ==> AllEmpty(rest) && users[0] == [];
      assert forall j :: 0 < j < |users| ==> users[j] == rest[j - 1];
    }
  }

  lemma {:induction false} RepeatAt(mid: nat, n: nat)
    ensures |Repeat(mid, n)| == n && forall j :: 0 <= j < n ==> Repeat(mid, n)[j] == mid
  {
    if n > 0 {
      RepeatAt(mid, n - 1);
    }
  }

  /** Mids are never below twice the user's number, and no user has more sections than consumers. */
  lemma {:induction false} MidsBound(users: seq<seq<Kind>>, i: nat)
    ensures |Mids(users, i)| <= Total(users)
    ensures forall j :: 0 <= j < |Mids(users, i)| ==> Mids(users, i)[j] >= 2 * i
    ensures Total(users) > 0 ==> Mids(users, i) != []
    decreases |users|
  {
    if users != [] {
      CountAll(users[0]);
      RepeatAt(2 * i, Count(users[0], Audio));
      MidsBound(users[1..], i + 1);
    }
  }

  /** Exactly when the sections are numbered as the BUNDLE list says. */
  lemma {:induction false} MidsAgree(users: seq<seq<Kind>>, i: nat)
    ensures Mids(users, i) == Range(2 * i, Total(users)) <==> Tidy(users)
    decreases |users|
  {
    if users != [] {
      MidsAgree(users[1..], i + 1);
      UserAgrees(users, i);
    }
  }

  lemma UserAgrees(users: seq<seq<Kind>>, i: nat)
    requires users != []
    requires Mids(users[1..], i + 1) == Range(2 * (i + 1), Total(users[1..])) <==> Tidy(users[1..])
    ensures Mids(users, i) == Range(2 * i, Total(users)) <==> Tidy(users)
  {
    var u, rest := users[0], users[1..];
    var a, v := Count(u, Audio), Count(u, Video);
    CountAll(u);
    if a == 1 && v == 1 {
      PairAgrees(users, i);
      assert u != [Audio] && u != [];
    } else {
      NonPairAgrees(users, i);
      OneAudio(u);
    }
  }

  lemma OneAudio(u: seq<Kind>)
    ensures u == [Audio] <==> Count(u, Audio) == 1 && Count(u, Video) == 0
  {
    CountAll(u);
    if |u| == 1 {
      assert u[..0] == [];
    }
  }

  /** A pair takes the next two mids and leaves the rest to the others. */
  lemma PairAgrees(users: seq<seq<Kind>>, i: nat)
    requires users != [] && IsPair(users[0])
    ensures Mids(users, i) == Range(2 * i, Total(users)) <==>
            Mids(users[1..], i + 1) == Range(2 * (i + 1), Total(users[1..]))
  {
    var rest := users[1..];
    CountAll(users[0]);
    assert Repeat(2 * i, 1) == [2 * i] by { assert Repeat(2 * i, 0) == []; }
    assert UserMids(users[0], i) == [2 * i, 2 * i + 1];
    assert Range(2 * i, Total(users)) == [2 * i, 2 * i + 1] + Range(2 * i + 2, Total(rest));
    assert Mids(rest, i + 1) == Mids(users, i)[2..];
    assert Range(2 * i + 2, Total(rest)) == Range(2 * i, Total(users))[2..];
  }

  lemma UserMidsAt(u: seq<Kind>, i: nat)
    ensures var a, v := Count(u, Audio), Count(u, Video);
            && |UserMids(u, i)| == a + (if v > 0 then 1 else 0)
            && (forall j :: 0 <= j < a ==> UserMids(u, i)[j] == 2 * i)
            && (v > 0 ==> UserMids(u, i)[a] == 2 * i + 1)
  {
    RepeatAt(2 * i, Count(u, Audio));
  }

  /** At most one section: the numbering goes on only if nothing follows. */
  lemma ShortAgrees(mine: seq<nat>, later: seq<nat>, range: seq<nat>, i: nat)
    requires |mine| <= 1 && (mine != [] ==> mine[0] == 2 * i) && (later != [] ==> later[0] >= 2 * i + 2)
    requires |later| > 0 || |range| == |mine|
    requires forall j :: 0 <= j < |range| ==> range[j] == 2 * i + j
    ensures mine + later == range <==> later == []
  {
    if later != [] {
      assert (mine + later)[|mine|] == later[0];
    }
  }

  /** Anything else breaks the numbering unless nothing follows. */
  lemma NonPairAgrees(users: seq<seq<Kind>>, i: nat)
    requires users != [] && !IsPair(users[0])
    ensures Mids(users, i) == Range(2 * i, Total(users)) <==>
            Count(users[0], Video) == 0 && Count(users[0], Audio) <= 1 && AllEmpty(users[1..])
  {
    hide UserMids, Count, AllEmpty;
    var u, rest := users[0], users[1..];
    var a, v := Count(u, Audio), Count(u, Video);
    var mine, later, range := UserMids(u, i), Mids(rest, i + 1), Range(2 * i, Total(users));
    assert Mids(users, i) == mine + later && Total(users) == |u| + Total(rest);
    CountAll(u);
    UserMidsAt(u, i);
    MidsBound(rest, i + 1);
    EmptyTotal(rest);
    hide Mids, Total, Range;
    if a <= 1 && v == 0 {
      ShortAgrees(mine, later, range, i);
    } else if a == 0 {
      assert (mine + later)[0] == mine[0] == 2 * i + 1 && range[0] == 2 * i;
    } else if a >= 2 {
      assert (mine + later)[1] == mine[1] == 2 * i && range[1] == 2 * i + 1;
    } else {
      assert |mine + later| < |range|;
    }
  }

  /** For any number of remote users with one audio and one video consumer each, whatever the map order. */
  lemma {:induction false} PairsAreTidy(users: seq<seq<Kind>>)
    requires forall u <- users :: IsPair(u)
    ensures Tidy(users) && Total(users) == 2 * |users|
  {
    if users != [] {
      CountAll(users[0]);
      PairsAreTidy(users[1..]);
    }
  }

  lemma BundleMatches(users: seq<seq<Kind>>)
    requires forall u <- users :: IsPair(u)
    ensures Mids(users, 0) == Range(0, 2 * |users|) == Range(0, Total(users))
  {
    PairsAreTidy(users);
    MidsAgree(users, 0);
  }

  /** A remote user with nothing but audio, ranged over before another user, leaves a gap in the numbering. */
  lemma UntidyMids(later: seq<Kind>)
    requires later != []
    ensures Mids([[Audio], later], 0) != Range(0, Total([[Audio], later]))
  {
    var users := [[Audio], later];
    MidsAgree(users, 0);
    assert users[1..] == [later] && users[1..][0] != [];
    CountAll([Audio]);
    OneAudio([Audio]);
  }
}
