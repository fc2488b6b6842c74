/** The downstream offer of a meshed user, whatever orders its maps are ranged over in. */
module DownOffer {
  import opened BundleMids
  import opened RoomMedia
  import opened Mesh

  /** An order in which a map is ranged over. */
  ghost predicate IsOrder<T(!new)>(order: seq<T>, keys: set<T>) {
    (forall x :: x in order <==> x in keys) && forall i, j :: 0 <= i < j < |order| ==> order[i] != order[j]
  }

  lemma {:induction false} OrderSize<T(!new)>(order: seq<T>, keys: set<T>)
    requires IsOrder(order, keys)
    ensures |order| == |keys|
  {
    if order == [] {
      assert keys == {};
    } else {
      var n := |order| - 1;
      var x := order[n];
      assert x in order;
      forall y ensures y in order[..n] <==> y in keys - {x} {
        if y in keys - {x} {
          var i :| 0 <= i < |order| && order[i] == y;
          assert order[..n][i] == y;
        }
      }
      OrderSize(order[..n], keys - {x});
    }
  }

  ghost function Kinds(cs: map<nat, Consumer>, order: seq<nat>): seq<Kind>
    requires IsOrder(order, cs.Keys)
  {
    seq(|order|, i requires 0 <= i < |order| => assert order[i] in order; cs[order[i]].kind)
  }

  lemma {:induction false} SomeCounted(kinds: seq<Kind>, kind: Kind)
    requires kind in kinds
    ensures Count(kinds, kind) > 0
  {
    if kinds[|kinds| - 1] != kind {
      SomeCounted(kinds[..|kinds| - 1], kind);
    }
  }

  lemma PairOfKinds(kinds: seq<Kind>)
    requires |kinds| == 2 && Audio in kinds && Video in kinds
    ensures IsPair(kinds)
  {
    CountAll(kinds);
    SomeCounted(kinds, Audio);
    SomeCounted(kinds, Video);
  }

  lemma KindOf(cs: map<nat, Consumer>, ps: map<nat, Producer>, order: seq<nat>, kind: Kind)
    requires Mirrors(cs, ps) && IsOrder(order, cs.Keys) && exists p <- ps :: ps[p].kind == kind
    ensures kind in Kinds(cs, order)
  {
    var p :| p in ps && ps[p].kind == kind;
    assert HasConsumerOf(cs, p);
    var c :| c in cs && cs[c].producerId == p;
    var i :| 0 <= i < |order| && order[i] == c;
    assert Kinds(cs, order)[i] == kind;
  }

  /** The mirror of an audio and a video producer is a pair, in whatever order it is ranged over. */
  lemma MirrorIsPair(cs: map<nat, Consumer>, u: User, order: seq<nat>)
    requires u.HasPair() && Mirrors(cs, u.producers) && IsOrder(order, cs.Keys)
    ensures IsPair(Kinds(cs, order))
  {
    hide IsPair;
    OrderSize(order, cs.Keys);
    KindOf(cs, u.producers, order, Audio);
    KindOf(cs, u.producers, order, Video);
    PairOfKinds(Kinds(cs, order));
  }

  /** The order of the other users, and the order of each one's consumers. */
  ghost predicate RangesOver(consumers: map<string, map<nat, Consumer>>, remotes: seq<string>, orders: seq<seq<nat>>) {
    && IsOrder(remotes, consumers.Keys) && |orders| == |remotes|
    && forall i :: 0 <= i < |remotes| ==> remotes[i] in consumers && IsOrder(orders[i], consumers[remotes[i]].Keys)
  }

  ghost function OfferKinds(consumers: map<string, map<nat, Consumer>>, remotes: seq<string>,
                            orders: seq<seq<nat>>): seq<seq<Kind>>
    requires RangesOver(consumers, remotes, orders)
  {
    seq(|remotes|, i requires 0 <= i < |remotes| && RangesOver(consumers, remotes, orders) =>
      Kinds(consumers[remotes[i]], orders[i]))
  }

  /** The offer is consistent: its BUNDLE group lists the mids of its sections, two per other user. */
  lemma MeshedOffer(room: map<string, User>, u: User, remotes: seq<string>, orders: seq<seq<nat>>)
    requires u.userId in room && MeshedUser(room, u) && RangesOver(u.consumers, remotes, orders)
    requires forall k <- room :: room[k].HasPair()
    ensures var kinds := OfferKinds(u.consumers, remotes, orders);
            Mids(kinds, 0) == Range(0, Total(kinds)) == Range(0, 2 * (|room| - 1))
  {
    hide IsOrder, User.HasPair, Kinds, IsPair, Mirrors, Range, Mids, Total;
    var kinds := OfferKinds(u.consumers, remotes, orders);
    OrderSize(remotes, u.consumers.Keys);
    assert |room.Keys - {u.userId}| == |room| - 1;
    forall i | 0 <= i < |kinds| ensures IsPair(kinds[i]) {
      MirrorIsPair(u.consumers[remotes[i]], room[remotes[i]], orders[i]);
    }
    BundleMatches(kinds);
  }
}
