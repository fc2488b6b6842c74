/** Users of a room, and when their consumers mirror the producers of the others. */
module Mesh {
  import opened BundleMids
  import opened RoomMedia

  class User {
    const userId: string
    const roomId: string
    const conn: nat
    const producers: map<nat, Producer>
    ghost const offer: Offer
    var producerTransport: nat
    var consumerTransport: nat                     // 0 while there is none
    var consumers: map<string, map<nat, Consumer>> // by remote user, then by consumer id

    constructor (roomId: string, userId: string, conn: nat, producerTransport: nat, producers: map<nat, Producer>,
                 ghost offer: Offer)
      ensures this.roomId == roomId && this.userId == userId && this.conn == conn && this.offer == offer
      ensures this.producerTransport == producerTransport && this.producers == producers
      ensures consumerTransport == 0 && consumers == map[]
    {
      this.roomId, this.userId, this.conn, this.offer := roomId, userId, conn, offer;
      this.producerTransport, this.producers := producerTransport, producers;
      consumerTransport, consumers := 0, map[];
    }

    /** One audio and one video producer. */
    ghost predicate HasPair() {
      && |producers| == 2
      && (exists p <- producers :: producers[p].kind == Audio) && (exists p <- producers :: producers[p].kind == Video)
    }

    /** The producers are those of the offer. */
    ghost predicate Offered()
      reads producers.Values`mapped
    {
      forall p <- producers.Values :: p.mapped == offer.Mapped(p.kind) && p.layered == offer.HasLayers(p.kind)
    }

    ghost predicate Holds(t: nat)
      reads this`producerTransport, this`consumerTransport
    {
      t == producerTransport || t == consumerTransport
    }
  }

  /** One consumer per producer, each as the producer prescribes. */
  ghost predicate Mirrors(cs: map<nat, Consumer>, ps: map<nat, Producer>)
    reads ps.Values`mapped
  {
    && |cs| == |ps|
    && (forall c <- cs :: cs[c].producerId in ps && ps[cs[c].producerId].Fits(cs[c]))
    && (forall p <- ps :: HasConsumerOf(cs, p))
  }

  ghost predicate HasConsumerOf(cs: map<nat, Consumer>, p: nat) {
    exists c <- cs :: cs[c].producerId == p
  }

  /** The same for the producers handled so far. */
  ghost predicate MirrorsPart(cs: map<nat, Consumer>, ps: map<nat, Producer>, done: set<nat>)
    reads ps.Values`mapped
  {
    && done <= ps.Keys && |cs| == |done|
    && (forall c <- cs :: cs[c].producerId in ps && ps[cs[c].producerId].Fits(cs[c]))
    && (forall p <- done :: HasConsumerOf(cs, p))
  }

  lemma NoMirrors(ps: map<nat, Producer>)
    ensures MirrorsPart(map[], ps, {})
  {}

  lemma MoreConsumers(cs: map<nat, Consumer>, id: nat, c: Consumer, p: nat)
    requires id !in cs
    ensures HasConsumerOf(cs[id := c], p) <==> HasConsumerOf(cs, p) || c.producerId == p
  {
    var more := cs[id := c];
    assert more[id] == c;
    if HasConsumerOf(cs, p) {
      var d :| d in cs && cs[d].producerId == p;
      assert more[d].producerId == p;
    }
  }

  lemma MirrorsMore(cs: map<nat, Consumer>, ps: map<nat, Producer>, done: set<nat>, p: nat, id: nat, c: Consumer)
    requires MirrorsPart(cs, ps, done) && p in ps && p !in done && id !in cs
    requires c.producerId == p && ps[p].Fits(c)
    ensures MirrorsPart(cs[id := c], ps, done + {p})
  {
    hide Producer.Fits, HasConsumerOf;
    assert cs[id := c].Keys == cs.Keys + {id};
    forall q <- done + {p} ensures HasConsumerOf(cs[id := c], q) {
      MoreConsumers(cs, id, c, q);
    }
  }

  lemma AllMirrored(cs: map<nat, Consumer>, ps: map<nat, Producer>, done: set<nat>)
    requires ps.Keys - done == {} && MirrorsPart(cs, ps, done)
    ensures Mirrors(cs, ps)
  {
    forall p <- ps ensures p in done {
      assert p !in ps.Keys - done;
    }
    assert done == ps.Keys;
  }

  /** The user has consumers that mirror the producers of every other user of the room. */
  ghost predicate CoveredUser(room: map<string, User>, u: User)
    reads u`consumers, (set v <- room.Values, p <- v.producers.Values :: p)`mapped
  {
    forall j <- room :: j != u.userId ==> j in u.consumers && Mirrors(u.consumers[j], room[j].producers)
  }

  ghost predicate Covered(room: map<string, User>)
    reads room.Values`consumers, (set v <- room.Values, p <- v.producers.Values :: p)`mapped
  {
    forall k <- room :: CoveredUser(room, room[k])
  }

  /** And for nobody else. */
  ghost predicate MeshedUser(room: map<string, User>, u: User)
    reads u`consumers, (set v <- room.Values, p <- v.producers.Values :: p)`mapped
  {
    u.consumers.Keys == room.Keys - {u.userId} && CoveredUser(room, u)
  }

  ghost predicate Meshed(room: map<string, User>)
    reads room.Values`consumers, (set v <- room.Values, p <- v.producers.Values :: p)`mapped
  {
    forall k <- room :: MeshedUser(room, room[k])
  }

  /** The consumers built so far mirror users of the room. */
  ghost predicate MirrorsAll(consumers: map<string, map<nat, Consumer>>, room: map<string, User>)
    reads (set u <- room.Values, p <- u.producers.Values :: p)`mapped
  {
    forall j <- consumers :: j in room && Mirrors(consumers[j], room[j].producers)
  }

  lemma MirrorsNobody(room: map<string, User>)
    ensures MirrorsAll(map[], room)
  {}

  lemma MirrorsOneMore(consumers: map<string, map<nat, Consumer>>, room: map<string, User>, j: string,
                       cs: map<nat, Consumer>)
    requires MirrorsAll(consumers, room) && j in room && Mirrors(cs, room[j].producers)
    ensures MirrorsAll(consumers[j := cs], room)
  {}

  lemma MeshedWhenMirrored(room: map<string, User>, u: User)
    requires u.consumers.Keys == room.Keys - {u.userId} && MirrorsAll(u.consumers, room)
    ensures MeshedUser(room, u)
  {}

  /** A user alone in a room needs no consumers. */
  lemma LonelyIsMeshed(room: map<string, User>, u: User)
    requires u.userId in room && room[u.userId] == u && |room| < 2 && u.consumers == map[]
    ensures Meshed(room)
  {
    assert room.Keys == {u.userId} by {
      assert |room.Keys - {u.userId}| == 0;
    }
  }

  lemma MeshedIsCovered(room: map<string, User>)
    requires Meshed(room)
    ensures Covered(room)
  {}
}
