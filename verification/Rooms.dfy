/** The signalling server: users join rooms, downstreams are refreshed, and users leave. */
module Rooms {
  import opened BundleMids
  import opened RoomMedia
  import opened WorkerTrace
  import opened Mesh
  import opened RoomCommands
  import opened RoomMaps

  class Server {
    var rooms: RoomMap
    var trace: seq<Command>
    var lastId: nat                   // generated ids so far
    ghost var owner: map<nat, User>   // of every open transport
    ghost var users: set<User>        // ever created
    ghost var media: set<Producer>    // ever created

    ghost predicate InRoom(u: User)
      reads this`rooms
    {
      Seated(u, rooms)
    }

    /** Rooms hold their own users under their ids. */
    ghost predicate WellPlaced()
      reads this`rooms, this`users
    {
      forall r <- rooms, k <- rooms[r] ::
        rooms[r][k] in users && rooms[r][k].roomId == r && rooms[r][k].userId == k
    }

    ghost predicate GoodMedia()
      reads this`users, this`media, media
    {
      && (forall u <- users :: u.HasPair() && u.producers.Values <= media && u.Offered())
      && (forall p <- media :: p.Good())
    }

    /** The trace is clean, there is a router per room, and the open transports are exactly those with an owner. */
    ghost predicate TraceOk()
      reads this`trace, this`owner, this`lastId, this`rooms
    {
      var worker := After(trace);
      && Clean(trace) && worker.routers == rooms.Keys && worker.open.Keys == owner.Keys
      && (forall t <- owner :: owner[t].roomId == worker.open[t])
      && (forall t <- worker.created :: 1 <= t <= lastId)
    }

    /** Owners hold their transports, and users in a room own what they hold. */
    ghost predicate Owned()
      reads this`owner, this`users, this`rooms, users`producerTransport, users`consumerTransport
    {
      && (forall t <- owner :: owner[t] in users && owner[t].Holds(t))
      && (forall u <- users :: InRoom(u) ==> OwnsAll(u))
    }

    ghost predicate OwnsAll(u: User)
      reads this`owner, u`producerTransport, u`consumerTransport
    {
      && u.producerTransport in owner && owner[u.producerTransport] == u
      && u.producerTransport != u.consumerTransport
      && (u.consumerTransport != 0 ==> u.consumerTransport in owner && owner[u.consumerTransport] == u)
    }

    /** No consumers without a transport. */
    ghost predicate NoStrays()
      reads this`rooms, this`users, users`consumerTransport, users`consumers
    {
      forall u <- users :: InRoom(u) && u.consumerTransport == 0 ==> u.consumers == map[]
    }

    ghost predicate Valid()
      reads this, users, media
    {
      WellPlaced() && GoodMedia() && TraceOk() && Owned() && NoStrays()
    }

    /** Open transports whose owner is no longer in a room: no command will ever name them again. */
    ghost function Leaked(): set<nat>
      reads this`owner, this`rooms
    {
      Unseated(owner, rooms)
    }

    constructor ()
      ensures Valid() && rooms == map[] && trace == [] && Leaked() == {} && fresh(users) && fresh(media)
    {
      rooms, trace, lastId, owner, users, media := map[], [], 0, map[], {}, {};
    }

    /** A transport is recorded on a user that is in a room. */
    ghost predicate Recorded(t: nat)
      reads this, users
    {
      t != 0 && exists r <- rooms, k <- rooms[r] :: rooms[r][k] in users && rooms[r][k].Holds(t)
    }

    /**
     Conservation: in every state the open transports are those recorded on users in rooms, and the leaked ones;
     no transport is both.
     */
    lemma Conservation(t: nat)
      requires Valid()
      ensures t in After(trace).open <==> Recorded(t) || t in Leaked()
      ensures !(Recorded(t) && t in Leaked())
    {
      hide After, Clean, GoodMedia;
      if Recorded(t) {
        var r, k :| r in rooms && k in rooms[r] && rooms[r][k] in users && rooms[r][k].Holds(t);
        assert InRoom(rooms[r][k]) && OwnsAll(rooms[r][k]);
      }
      if t in owner && InRoom(owner[t]) {
        var u := owner[t];
        assert rooms[u.roomId][u.userId] == u;
        ZeroNotOpen();
      }
    }

    lemma ZeroNotOpen()
      requires TraceOk()
      ensures 0 !in owner
    {
      OpenIsKnown(trace);
    }

    // ----- Commands -----

    /** A command that opens and closes nothing. */
    method Emit(c: Command)
      requires TraceOk() && After(trace).Allows(c) && After(trace).Apply(c) == After(trace)
      modifies this`trace
      ensures TraceOk() && trace == old(trace) + [c] && After(trace) == old(After(trace))
    {
      Snoc(trace, c);
      trace := trace + [c];
    }

    method CreateTransportFor(room: string, ghost u: User) returns (t: nat)
      requires TraceOk() && room in rooms && u.roomId == room
      modifies this`trace, this`lastId, this`owner
      ensures TraceOk() && t == lastId == old(lastId) + 1 && t !in old(owner)
      ensures trace == old(trace) + [CreateTransport(room, t)] && owner == old(owner)[t := u]
    {
      hide After, Clean;
      OpenIsKnown(trace);
      lastId := lastId + 1;
      t := lastId;
      Snoc(trace, CreateTransport(room, t));
      trace := trace + [CreateTransport(room, t)];
      owner := owner[t := u];
    }

    /** The empty id may be closed any number of times. */
    method CloseTransportOf(room: string, t: nat)
      requires TraceOk() && (t == 0 || (t in owner && owner[t].roomId == room))
      modifies this`trace, this`owner
      ensures TraceOk() && trace == old(trace) + [CloseTransport(room, t)] && owner == old(owner) - {t}
    {
      hide After, Clean;
      ZeroNotOpen();
      Snoc(trace, CloseTransport(room, t));
      trace := trace + [CloseTransport(room, t)];
      owner := owner - {t};
    }

    method CloseGroup(t: nat, group: set<nat>)
      requires TraceOk() && (group != {} ==> t in After(trace).open)
      modifies this`trace
      ensures TraceOk() && After(trace) == old(After(trace)) && Sent(old(trace), trace, Closing(t, group))
    {
      hide TraceOk, After, Sent;
      SentNothing(trace);
      ghost var done := {};
      assert Closing(t, done) == multiset{};
      var ids := group;
      while ids != {}
        invariant ids == group - done && done <= group
        invariant TraceOk() && After(trace) == old(After(trace)) && Sent(old(trace), trace, Closing(t, done))
        decreases |ids|
      {
        var id :| id in ids;
        ghost var before := trace;
        Emit(CloseConsumer(t, id));
        SentOne(before, CloseConsumer(t, id));
        SentBoth(old(trace), before, trace, Closing(t, done), multiset{CloseConsumer(t, id)});
        ClosingOneMore(t, done, id);
        ids, done := ids - {id}, done + {id};
      }
      assert done == group;
    }

    method CloseProducers(t: nat, group: set<nat>)
      requires TraceOk() && t in After(trace).open
      modifies this`trace
      ensures TraceOk() && After(trace) == old(After(trace)) && Sent(old(trace), trace, ClosingProducers(t, group))
    {
      hide TraceOk, After, Sent;
      SentNothing(trace);
      ghost var done := {};
      assert ClosingProducers(t, done) == multiset{};
      var ids := group;
      while ids != {}
        invariant ids == group - done && done <= group
        invariant TraceOk() && After(trace) == old(After(trace)) && Sent(old(trace), trace, ClosingProducers(t, done))
        decreases |ids|
      {
        var id :| id in ids;
        ghost var before := trace;
        Emit(CloseProducer(t, id));
        SentOne(before, CloseProducer(t, id));
        SentBoth(old(trace), before, trace, ClosingProducers(t, done), multiset{CloseProducer(t, id)});
        ClosingOneMoreProducer(t, done, id);
        ids, done := ids - {id}, done + {id};
      }
      assert done == group;
    }

    /** One closeConsumer command for every consumer, in some order, and nothing else. */
    method CloseConsumers(t: nat, consumers: Consumers)
      requires TraceOk() && (consumers != map[] ==> t in After(trace).open)
      modifies this`trace
      ensures TraceOk() && After(trace) == old(After(trace))
      ensures ClosedAll(old(trace), trace, t, consumers, consumers.Keys)
    {
      hide TraceOk, After, Sent, Closing, ClosedAll;
      ClosedNone(trace, t, consumers);
      ghost var done := {};
      var ks := consumers.Keys;
      while ks != {}
        invariant ks == consumers.Keys - done && done <= consumers.Keys
        invariant TraceOk() && After(trace) == old(After(trace)) && ClosedAll(old(trace), trace, t, consumers, done)
        decreases |ks|
      {
        var k :| k in ks;
        ghost var before := trace;
        CloseGroup(t, consumers[k].Keys);
        ClosedMore(old(trace), before, trace, t, consumers, done, k);
        ks, done := ks - {k}, done + {k};
      }
      assert done == consumers.Keys;
    }

    // ----- Refreshing downstreams -----

    /** One new consumer per producer of the other user; the producers are rewritten in place. */
    method ConsumeFrom(other: User) returns (cs: map<nat, Consumer>)
      requires GoodMedia() && other in users
      modifies this`lastId, media`codecs, media`encodings
      ensures GoodMedia() && lastId >= old(lastId) && Mirrors(cs, other.producers)
    {
      hide Mirrors, MirrorsPart, GoodMedia;
      cs := map[];
      NoMirrors(other.producers);
      ghost var done := {};
      var todo := other.producers.Keys;
      while todo != {}
        invariant todo == other.producers.Keys - done && GoodMedia() && lastId >= old(lastId)
        invariant (forall c <- cs :: c <= lastId) && MirrorsPart(cs, other.producers, done)
        decreases |todo|
      {
        var p :| p in todo;
        cs := ConsumeNext(other, p, cs, done);
        todo, done := todo - {p}, done + {p};
      }
      AllMirrored(cs, other.producers, done);
    }

    method ConsumeNext(other: User, p: nat, cs: map<nat, Consumer>, ghost done: set<nat>)
      returns (more: map<nat, Consumer>)
      requires GoodMedia() && other in users && p in other.producers && p !in done
      requires (forall c <- cs :: c <= lastId) && MirrorsPart(cs, other.producers, done)
      modifies this`lastId, media`codecs, media`encodings
      ensures GoodMedia() && lastId == old(lastId) + 1
      ensures (forall c <- more :: c <= lastId) && MirrorsPart(more, other.producers, done + {p})
    {
      hide MirrorsPart, GoodMedia, Producer.Fits;
      var c := ConsumeOne(other, p);
      lastId := lastId + 1;
      MirrorsMore(cs, other.producers, done, p, lastId, c);
      more := cs[lastId := c];
    }

    method ConsumeOne(other: User, p: nat) returns (c: Consumer)
      requires GoodMedia() && other in users && p in other.producers
      modifies media`codecs, media`encodings
      ensures GoodMedia() && other.producers[p].Fits(c) && c.producerId == p
    {
      var producer := other.producers[p];
      assert producer in other.producers.Values;
      c := producer.MakeConsumer(p);
    }

    method ConsumeInto(here: map<string, User>, j: string, u: User)
      requires GoodMedia() && TraceOk() && j in here && here.Values <= users && MirrorsAll(u.consumers, here)
      modifies this`lastId, u`consumers, media`codecs, media`encodings
      ensures GoodMedia() && TraceOk() && lastId >= old(lastId) && MirrorsAll(u.consumers, here)
      ensures u.consumers.Keys == old(u.consumers.Keys) + {j}
    {
      hide TraceOk, GoodMedia, MirrorsAll, Mirrors;
      var cs := ConsumeFrom(here[j]);
      LaterIds();
      MirrorsOneMore(u.consumers, here, j, cs);
      u.consumers := u.consumers[j := cs];
    }

    /** Drawing more ids leaves the trace in order. */
    twostate lemma LaterIds()
      requires old(TraceOk()) && trace == old(trace) && owner == old(owner) && rooms == old(rooms)
               && lastId >= old(lastId)
      ensures TraceOk()
    {}

    method ConsumeFromOthers(here: map<string, User>, others: set<string>, u: User)
      requires GoodMedia() && TraceOk() && others <= here.Keys && here.Values <= users
      requires u.consumers == map[] && MirrorsAll(map[], here)
      modifies this`lastId, u`consumers, media`codecs, media`encodings
      ensures GoodMedia() && TraceOk() && lastId >= old(lastId)
      ensures MirrorsAll(u.consumers, here) && u.consumers.Keys == others
    {
      hide TraceOk, GoodMedia, MirrorsAll;
      var todo := others;
      while todo != {}
        invariant todo <= others
        invariant GoodMedia() && TraceOk() && lastId >= old(lastId) && MirrorsAll(u.consumers, here)
        invariant u.consumers.Keys == others - todo
        decreases |todo|
      {
        var j :| j in todo;
        todo := todo - {j};
        ConsumeInto(here, j, u);
      }
    }

    method SwapTransport(room: string, t: nat, consumers: Consumers, ghost u: User) returns (t': nat)
      requires TraceOk() && room in rooms && u.roomId == room && (t == 0 || (t in owner && owner[t].roomId == room))
      requires consumers != map[] ==> t != 0
      modifies this`trace, this`lastId, this`owner
      ensures TraceOk() && t' == lastId == old(lastId) + 1 && t' !in old(owner)
      ensures owner == (old(owner) - {t})[t' := u]
      ensures Replacement(old(trace), trace, room, t, t', consumers)
    {
      hide ClosedAll, After, Clean;
      ZeroNotOpen();
      OpenIsKnown(trace);
      CloseConsumers(t, consumers);
      ghost var between := trace;
      if t != 0 {
        CloseTransportOf(room, t);
      }
      assert owner == old(owner) - {t};
      t' := CreateTransportFor(room, u);
      assert IsReplacement(old(trace), between, trace, room, t, t', consumers);
    }

    /** Closes the user's consumers and consumer transport, and opens a new one. */
    method ReplaceTransport(u: User)
      requires Valid() && InRoom(u) && u in users
      modifies this`trace, this`lastId, this`owner, u`consumerTransport, u`consumers
      ensures Valid() && Leaked() == old(Leaked()) && u.consumers == map[]
              && u.consumerTransport == lastId == old(lastId) + 1
      ensures owner == (old(owner) - {old(u.consumerTransport)})[lastId := u]
      ensures Replacement(old(trace), trace, u.roomId, old(u.consumerTransport), lastId, old(u.consumers))
    {
      hide GoodMedia, WellPlaced, TraceOk, Replacement, Unseated, Seated;
      var t, t' := u.consumerTransport, 0;
      ZeroNotOpen();
      SeatedRoom(u, rooms);
      assert OwnsAll(u) && u.producerTransport != 0;
      t' := SwapTransport(u.roomId, t, u.consumers, u);
      SwapKeepsUnseated(old(owner), rooms, t, t', u);
      u.consumerTransport, u.consumers := t', map[];
      forall x <- owner ensures owner[x] in users && owner[x].Holds(x) {
        if x != t' {
          assert old(owner[x].Holds(x)) && x != t;
        }
      }
      forall v <- users | InRoom(v) ensures OwnsAll(v) {
        assert old(OwnsAll(v));
      }
    }

    /** One round of a refresh: the user ends up with a consumer for every producer of every other user. */
    method RefreshUser(room: string, u: User)
      requires Valid() && InRoom(u) && u.roomId == room
      modifies this`trace, this`lastId, this`owner, u`consumerTransport, u`consumers, media`codecs, media`encodings
      ensures Valid() && Leaked() == old(Leaked()) && MeshedUser(rooms[room], u)
      ensures Replacement(old(trace), trace, room, old(u.consumerTransport), u.consumerTransport, old(u.consumers))
      ensures u.consumerTransport == old(lastId) + 1 <= lastId
      ensures owner == (old(owner) - {old(u.consumerTransport)})[u.consumerTransport := u]
    {
      hide Owned, TraceOk, GoodMedia, WellPlaced, MirrorsAll, MeshedUser, Leaked, Replacement;
      AllPlaced(room);
      ReplaceTransport(u);
      MirrorsNobody(rooms[room]);
      ConsumeFromOthers(rooms[room], rooms[room].Keys - {u.userId}, u);
      MeshedWhenMirrored(rooms[room], u);
    }

    lemma PairedMedia()
      requires GoodMedia()
      ensures forall u <- users :: u.HasPair()
    {
      hide User.HasPair, Producer.Good;
    }

    lemma OfferedMedia(u: User)
      requires GoodMedia() && u in users
      ensures u.Offered() && forall p <- u.producers.Values :: p.Good()
    {
      hide Producer.Good;
    }

    lemma AllPlaced(room: string)
      requires WellPlaced() && room in rooms
      ensures var here := rooms[room];
              forall k <- here :: here[k] in users && here[k].roomId == room && here[k].userId == k
      ensures rooms[room].Values <= users
    {}

    ghost function UsersOf(room: string): set<User>
      reads this`rooms
    {
      if room in rooms then rooms[room].Values else {}
    }

    /** The user has the consumers it should have, on a transport that replaced its former one. */
    ghost predicate Renewed(start: seq<Command>, here: map<string, User>, u: User, former: Downstream)
      reads this`trace, u`consumerTransport, u`consumers, (set v <- here.Values, p <- v.producers.Values :: p)`mapped
    {
      && MeshedUser(here, u)
      && Replaced(start, trace, u.roomId, former.transport, u.consumerTransport, former.consumers)
    }

    /** So far; the other users are as they were. */
    ghost predicate RenewedBut(start: seq<Command>, here: map<string, User>, former: map<string, Downstream>,
                               todo: set<string>)
      reads this`trace, here.Values`consumerTransport, here.Values`consumers
      reads (set v <- here.Values, p <- v.producers.Values :: p)`mapped
    {
      && here.Keys == former.Keys
      && (forall k <- here :: k in todo || Renewed(start, here, here[k], former[k]))
      && (forall k <- here :: k in todo ==> former[k] == DownstreamOf(here[k]))
    }

    /** Transports change hands only within the room; new ones have new ids. */
    static ghost predicate OnlyOf(us: set<User>, o: map<nat, User>, id: nat, o': map<nat, User>) {
      && (forall t <- o :: t <= id)
      && (forall t <- o' :: t > id || (t in o && o'[t] == o[t]))
      && (forall t <- o :: o[t] in us || t in o')
    }

    lemma OnlyOfMore(us: set<User>, o: map<nat, User>, id: nat, o': map<nat, User>, u: User, t: nat, t': nat)
      requires OnlyOf(us, o, id, o') && u in us && t' > id && (t in o' ==> o'[t] == u)
      ensures OnlyOf(us, o, id, (o' - {t})[t' := u])
    {}

    lemma OwnTransport(u: User)
      requires Valid() && InRoom(u)
      ensures u in users && (u.consumerTransport in owner ==> owner[u.consumerTransport] == u)
      ensures forall t <- owner :: 1 <= t <= lastId
    {
      OpenIsKnown(trace);
    }

    method RefreshNext(here: map<string, User>, k: string, u: User, ghost todo: set<string>, ghost start: seq<Command>,
                       ghost former: map<string, Downstream>, ghost o: map<nat, User>, ghost id: nat)
      requires Valid() && start <= trace && k in todo && k in here && here[k] == u && InRoom(u)
               && rooms[u.roomId] == here
      requires RenewedBut(start, here, former, todo) && OnlyOf(here.Values, o, id, owner) && id <= lastId
      modifies this`trace, this`lastId, this`owner, media`codecs, media`encodings, u`consumerTransport, u`consumers
      ensures Valid() && start <= trace && Leaked() == old(Leaked())
      ensures RenewedBut(start, here, former, todo - {k}) && OnlyOf(here.Values, o, id, owner) && id <= lastId
    {
      hide WellPlaced, GoodMedia, TraceOk, Owned, NoStrays, Leaked, MeshedUser, Replaced, Replacement, OnlyOf;
      AllPlaced(u.roomId);
      OwnTransport(u);
      OnlyOfMore(here.Values, o, id, owner, u, u.consumerTransport, lastId + 1);
      RefreshUser(u.roomId, u);
      NowReplaced(start, old(trace), trace, u.roomId, old(u.consumerTransport), u.consumerTransport, old(u.consumers));
      RenewedNow(start, here, u, former[k]);
      forall j <- here | j !in todo ensures Renewed(start, here, here[j], former[j]) {
        StillReplaced(start, old(trace), trace, here[j].roomId, former[j].transport, here[j].consumerTransport,
                      former[j].consumers);
        RenewedNow(start, here, here[j], former[j]);
      }
    }

    lemma RenewedNow(start: seq<Command>, here: map<string, User>, u: User, former: Downstream)
      requires MeshedUser(here, u)
      requires Replaced(start, trace, u.roomId, former.transport, u.consumerTransport, former.consumers)
      ensures Renewed(start, here, u, former)
    {}

    ghost predicate Crowded(room: string)
      reads this`rooms
    {
      room in rooms && |rooms[room]| >= 2
    }

    ghost function Downstreams(here: map<string, User>): map<string, Downstream>
      reads here.Values`consumerTransport, here.Values`consumers
    {
      map k <- here :: DownstreamOf(here[k])
    }

    /** ProcessDownOfferSdp: nothing at all for a room with fewer than two users. */
    method Refresh(room: string)
      requires Valid()
      modifies this`trace, this`lastId, this`owner, media`codecs, media`encodings
      modifies UsersOf(room)`consumerTransport, UsersOf(room)`consumers
      ensures Valid() && Leaked() == old(Leaked()) && old(trace) <= trace
      ensures OnlyOf(UsersOf(room), old(owner), old(lastId), owner)
      ensures Crowded(room) ==> RenewedBut(old(trace), rooms[room], old(Downstreams(rooms[room])), {})
      ensures !Crowded(room) ==> trace == old(trace) && forall u <- UsersOf(room) :: u.consumers == old(u.consumers)
    {
      hide WellPlaced, GoodMedia, TraceOk, Owned, NoStrays, Leaked, OnlyOf, RenewedBut;
      OnlyOfNone(UsersOf(room));
      if room !in rooms || |rooms[room]| <= 1 {
        return;
      }
      AllPlaced(room);
      AllFormer(trace, rooms[room]);
      RefreshAll(room, rooms[room], Downstreams(rooms[room]));
    }

    method RefreshAll(room: string, here: map<string, User>, ghost former: map<string, Downstream>)
      requires Valid() && room in rooms && rooms[room] == here && OnlyOf(here.Values, owner, lastId, owner)
      requires forall k <- here :: InRoom(here[k]) && here[k].roomId == room
      requires RenewedBut(trace, here, former, here.Keys)
      modifies this`trace, this`lastId, this`owner, media`codecs, media`encodings
      modifies here.Values`consumerTransport, here.Values`consumers
      ensures Valid() && Leaked() == old(Leaked()) && old(trace) <= trace
      ensures OnlyOf(here.Values, old(owner), old(lastId), owner)
      ensures RenewedBut(old(trace), here, former, {})
    {
      hide Valid, Leaked, OnlyOf, RenewedBut;
      var todo := here.Keys;
      while todo != {}
        invariant todo <= here.Keys && Valid() && Leaked() == old(Leaked()) && old(trace) <= trace
                  && old(lastId) <= lastId
        invariant OnlyOf(here.Values, old(owner), old(lastId), owner)
        invariant RenewedBut(old(trace), here, former, todo)
        decreases |todo|
      {
        var k :| k in todo;
        RefreshNext(here, k, here[k], todo, old(trace), former, old(owner), old(lastId));
        todo := todo - {k};
      }
    }

    lemma OnlyOfNone(us: set<User>)
      requires TraceOk()
      ensures OnlyOf(us, owner, lastId, owner)
    {
      OpenIsKnown(trace);
    }

    lemma AllFormer(start: seq<Command>, here: map<string, User>)
      ensures RenewedBut(start, here, Downstreams(here), here.Keys)
    {}

    lemma RenewedIsMeshed(start: seq<Command>, here: map<string, User>, former: map<string, Downstream>)
      requires RenewedBut(start, here, former, {})
      ensures Meshed(here)
    {}

    /** Refreshing a room meshes it if it has two users, and changes no other room's mesh. */
    method RefreshOnly(room: string)
      requires Valid()
      modifies this`trace, this`lastId, this`owner, media`codecs, media`encodings
      modifies UsersOf(room)`consumerTransport, UsersOf(room)`consumers
      ensures Valid() && Leaked() == old(Leaked()) && old(trace) <= trace
      ensures OnlyOf(UsersOf(room), old(owner), old(lastId), owner)
      ensures forall r <- rooms :: Meshed(rooms[r]) <==> old(Meshed(rooms[r])) || (r == room && Crowded(r))
      ensures forall r <- rooms :: old(Covered(rooms[r])) ==> Covered(rooms[r])
    {
      hide GoodMedia, TraceOk, Owned, NoStrays, Leaked, OnlyOf, RenewedBut, Meshed, Covered;
      ghost var start, former := trace, if room in rooms then Downstreams(rooms[room]) else map[];
      Refresh(room);
      if Crowded(room) {
        RenewedIsMeshed(start, rooms[room], former);
        MeshedIsCovered(rooms[room]);
      }
      forall r <- rooms | r != room
        ensures Meshed(rooms[r]) <==> old(Meshed(rooms[r]))
        ensures old(Covered(rooms[r])) ==> Covered(rooms[r])
      {
        assert rooms[r].Values !! UsersOf(room);
      }
    }

    // ----- Joining -----

    method OpenRoom(room: string)
      requires Valid() && room !in rooms
      modifies this`trace, this`rooms
      ensures Valid() && trace == old(trace) + [CreateRouter(room)] && rooms == old(rooms)[room := map[]]
    {
      hide After, Clean, GoodMedia;
      Snoc(trace, CreateRouter(room));
      trace := trace + [CreateRouter(room)];
      rooms := rooms[room := map[]];
      assert forall u <- users :: InRoom(u) <==> old(InRoom(u));
    }

    method MakeProducer(kind: Kind, offer: Offer) returns (p: Producer)
      requires offer.InRange()
      ensures fresh(p) && p.Good() && p.kind == kind
      ensures p.mapped == offer.Mapped(kind) && p.layered == offer.HasLayers(kind)
    {
      if kind == Audio {
        p := new Producer.Plain(Audio, offer.audio, 0);
      } else if offer.video.Single? {
        p := new Producer.Plain(Video, offer.video.ssrc, offer.video.rtxSsrc);
      } else {
        p := new Producer.Layered(offer.video.ssrc);
      }
    }

    /** A user with an audio and a video producer; a=ssrc values are 32-bit numbers. */
    method MakeUser(room: string, user: string, conn: nat, offer: Offer) returns (u: User)
      requires offer.InRange()
      ensures fresh(u) && u.roomId == room && u.userId == user && u.conn == conn
      ensures u.producerTransport == lastId + 1 && u.consumerTransport == 0 && u.consumers == map[]
      ensures u.HasPair() && u.producers.Keys == {lastId + 2, lastId + 3}
      ensures u.offer == offer && u.Offered() && forall p <- u.producers.Values :: fresh(p) && p.Good()
    {
      hide Producer.Good, Offer.Mapped, Offer.HasLayers;
      var a := MakeProducer(Audio, offer);
      var v := MakeProducer(Video, offer);
      u := new User(room, user, conn, lastId + 1, map[lastId + 2 := a, lastId + 3 := v], offer);
      assert u.producers.Keys == {lastId + 2, lastId + 3};
      assert u.producers[lastId + 2] == a && u.producers[lastId + 3] == v;
      assert forall p <- u.producers.Values :: p == a || p == v;
    }

    ghost method Register(u: User)
      requires Valid() && !InRoom(u) && u.HasPair() && u.Offered() && forall p <- u.producers.Values :: p.Good()
      modifies this`users, this`media
      ensures Valid() && users == old(users) + {u} && media == old(media) + u.producers.Values
    {
      hide TraceOk, User.HasPair, Producer.Good, User.Holds, OwnsAll;
      users, media := users + {u}, media + u.producers.Values;
    }

    method Enroll(room: string, user: string, conn: nat, offer: Offer) returns (u: User)
      requires Valid() && offer.InRange()
      modifies this`users, this`media
      ensures Valid() && fresh(u) && users == old(users) + {u} && !InRoom(u) && fresh(media - old(media))
      ensures u.roomId == room && u.userId == user && u.conn == conn && u.offer == offer
      ensures u.producerTransport == lastId + 1 && u.consumerTransport == 0 && u.consumers == map[]
    {
      hide GoodMedia, TraceOk, Owned, NoStrays, Producer.Good, User.HasPair;
      u := MakeUser(room, user, conn, offer);
      assert !InRoom(u);
      Register(u);
    }

    /** Creates a transport and its producers on the worker. */
    method Launch(room: string, ghost u: User) returns (t: nat)
      requires TraceOk() && room in rooms && u.roomId == room
      modifies this`trace, this`lastId, this`owner
      ensures TraceOk() && t == old(lastId) + 1 && lastId == t + 2 && t !in old(owner) && owner == old(owner)[t := u]
      ensures trace == old(trace) + [CreateTransport(room, t), Produce(t, t + 1), Produce(t, t + 2)]
    {
      hide After, Clean;
      t := CreateTransportFor(room, u);
      lastId := lastId + 2;
      Emit(Produce(t, t + 1));
      Emit(Produce(t, t + 2));
    }

    method Announce(u: User)
      requires Valid() && u in users && !InRoom(u) && u.roomId in rooms
      requires u.producerTransport == lastId + 1 && u.consumerTransport == 0
      modifies this`trace, this`lastId, this`owner
      ensures Valid() && OwnsAll(u) && u.producerTransport !in old(owner) && lastId == u.producerTransport + 2
      ensures owner == old(owner)[u.producerTransport := u]
      ensures trace == old(trace) + [CreateTransport(u.roomId, u.producerTransport),
                                     Produce(u.producerTransport, u.producerTransport + 1),
                                     Produce(u.producerTransport, u.producerTransport + 2)]
    {
      hide TraceOk, WellPlaced, GoodMedia, NoStrays;
      var t := Launch(u.roomId, u);
    }

    method Store(u: User)
      requires Valid() && u in users && u.roomId in rooms && OwnsAll(u) && u.consumers == map[] && !InRoom(u)
      modifies this`rooms
      ensures Valid() && rooms == old(rooms)[u.roomId := old(rooms)[u.roomId][u.userId := u]]
    {
      hide After, Clean, GoodMedia, OwnsAll, User.Holds, Seated;
      ghost var before := rooms;
      rooms := rooms[u.roomId := rooms[u.roomId][u.userId := u]];
      forall v <- users | InRoom(v) ensures v == u || old(InRoom(v)) {
        StoredSeats(before, u, v);
      }
    }

    /** The commands by which a user enters a room. */
    ghost function Entering(before: seq<Command>, known: bool, room: string, t: nat): seq<Command> {
      before + (if known then [] else [CreateRouter(room)])
        + [CreateTransport(room, t), Produce(t, t + 1), Produce(t, t + 2)]
    }

    method EnsureRoom(room: string)
      requires Valid()
      modifies this`trace, this`rooms
      ensures Valid() && room in rooms && rooms == old(rooms)[room := UsersAt(old(rooms), room)]
      ensures trace == old(trace) + if room in old(rooms) then [] else [CreateRouter(room)]
    {
      hide Valid;
      if room !in rooms {
        OpenRoom(room);
      }
    }

    method Enter(room: string, user: string, conn: nat, offer: Offer) returns (u: User)
      requires Valid() && offer.InRange()
      modifies this
      ensures Valid() && fresh(u) && users == old(users) + {u} && fresh(media - old(media))
      ensures u.roomId == room && u.userId == user && u.conn == conn && u.offer == offer
      ensures u.consumers == map[] && lastId == u.producerTransport + 2
      ensures u.producerTransport !in old(owner) && owner == old(owner)[u.producerTransport := u]
      ensures rooms == old(rooms)[room := UsersAt(old(rooms), room)[user := u]]
      ensures trace == Entering(old(trace), room in old(rooms), room, u.producerTransport)
    {
      hide WellPlaced, GoodMedia, TraceOk, Owned, NoStrays, Producer.Good, User.HasPair, OwnsAll, UsersAt;
      EnsureRoom(room);
      u := Enroll(room, user, conn, offer);
      assert owner == old(owner);
      Announce(u);
      Store(u);
    }

    /** Everything up to the refresh. */
    method Arrive(room: string, user: string, conn: nat, offer: Offer) returns (u: User)
      requires Valid() && offer.InRange()
      modifies this
      ensures Valid() && fresh(u) && u.roomId == room && u.userId == user && u.conn == conn && u.offer == offer
      ensures users == old(users) + {u} && fresh(media - old(media))
      ensures rooms == old(rooms)[room := UsersAt(old(rooms), room)[user := u]]
              && UsersOf(room) <= old(UsersOf(room)) + {u}
      ensures Leaked() == old(Leaked()) + Transports(old(owner), UsersAt(old(rooms), room), user)
      ensures Crowded(room) || Meshed(rooms[room])
      ensures trace == Entering(old(trace), room in old(rooms), room, u.producerTransport)
              && lastId == u.producerTransport + 2
      ensures u.producerTransport !in old(owner) && owner == old(owner)[u.producerTransport := u]
    {
      hide Valid, Unseated, UsersAt, Entering, Transports, Meshed;
      Newcomer(room);
      u := Enter(room, user, conn, offer);
      StoreUnseats(old(owner), old(rooms), u.producerTransport, u);
      StoredUsers(old(rooms), room, user, u);
      if !Crowded(room) {
        LonelyIsMeshed(rooms[room], u);
      }
    }

    /**
     ProcessUpOfferSdp. Afterwards the room is meshed. What leaks is exactly what the user's predecessor under
     the same id held, so nothing leaks if and only if there was none.
     */
    method Join(room: string, user: string, conn: nat, offer: Offer) returns (u: User)
      requires Valid() && offer.InRange()
      modifies this, media`codecs, media`encodings, UsersOf(room)`consumerTransport, UsersOf(room)`consumers
      ensures Valid() && fresh(u) && u.roomId == room && u.userId == user && u.conn == conn && u.offer == offer
      ensures rooms == old(rooms)[room := UsersAt(old(rooms), room)[user := u]] && Meshed(rooms[room])
      ensures Leaked() == old(Leaked()) + Transports(old(owner), UsersAt(old(rooms), room), user)
      ensures Entering(old(trace), room in old(rooms), room, u.producerTransport) <= trace
      ensures u.producerTransport !in old(owner)
      ensures OnlyOf(UsersOf(room), old(owner)[u.producerTransport := u], u.producerTransport + 2, owner)
      ensures fresh(users - old(users)) && fresh(media - old(media))
    {
      hide Valid, Leaked, UsersAt, Entering, OnlyOf, Transports, Meshed, Covered;
      u := Arrive(room, user, conn, offer);
      RefreshOnly(room);
    }

    lemma Newcomer(room: string)
      requires Valid()
      ensures owner.Values <= users
      ensures var here := UsersAt(rooms, room);
              forall k <- here :: here[k].roomId == room && here[k].userId == k
    {}

    // ----- Leaving -----

    method CloseRoom(room: string)
      requires Valid() && room in rooms && rooms[room] == map[]
      modifies this`trace, this`rooms, this`owner
      ensures Valid() && trace == old(trace) + [CloseRouter(room)]
      ensures rooms == old(rooms) - {room} && owner == Off(old(owner), room)
    {
      hide After, Clean, GoodMedia, User.Holds, Seated;
      Snoc(trace, CloseRouter(room));
      trace := trace + [CloseRouter(room)];
      ghost var before := rooms;
      rooms := rooms - {room};
      forall v <- users | InRoom(v) ensures v.roomId != room && old(InRoom(v)) {
        DroppedSeats(before, room, v);
      }
      owner := Off(owner, room);
    }

    method CloseUser(u: User)
      requires TraceOk() && OwnsAll(u) && (u.consumers != map[] ==> u.consumerTransport != 0)
      modifies this`trace, this`owner
      ensures TraceOk() && owner == old(owner) - {u.producerTransport, u.consumerTransport}
      ensures Farewell(old(trace), trace, u.roomId, u.producerTransport, u.producers.Keys, DownstreamOf(u))
    {
      hide After, Clean, Sent, ClosedAll, ClosingProducers;
      CloseProducers(u.producerTransport, u.producers.Keys);
      ghost var middle := trace;
      CloseTransportOf(u.roomId, u.producerTransport);
      CloseConsumers(u.consumerTransport, u.consumers);
      ghost var late := trace;
      CloseTransportOf(u.roomId, u.consumerTransport);
      assert IsFarewell(old(trace), middle, late, trace, u.roomId, u.producerTransport, u.producers.Keys,
                        DownstreamOf(u));
    }

    /** Closes everything a user has, and takes it out of its room. */
    method Remove(u: User)
      requires Valid() && InRoom(u)
      modifies this`trace, this`owner, this`rooms
      ensures Valid() && rooms == old(rooms)[u.roomId := old(rooms)[u.roomId] - {u.userId}]
      ensures owner == Disowned(old(owner), {u})
      ensures Farewell(old(trace), trace, u.roomId, u.producerTransport, u.producers.Keys, DownstreamOf(u))
    {
      hide TraceOk, WellPlaced, GoodMedia, Farewell, User.Holds;
      OwnsWhatItHolds(u);
      CloseUser(u);
      assert OwnedBut(u);
      TakeOut(u);
    }

    /** As Owned, when this user has nothing left. */
    ghost predicate OwnedBut(u: User)
      reads this`owner, this`users, this`rooms, users`producerTransport, users`consumerTransport
    {
      && (forall t <- owner :: owner[t] in users && owner[t].Holds(t))
      && (forall v <- users :: InRoom(v) && v != u ==> OwnsAll(v))
    }

    method TakeOut(u: User)
      requires WellPlaced() && GoodMedia() && TraceOk() && OwnedBut(u) && NoStrays() && InRoom(u)
      modifies this`rooms
      ensures Valid() && rooms == old(rooms)[u.roomId := old(rooms)[u.roomId] - {u.userId}]
    {
      hide After, Clean, GoodMedia, User.Holds, OwnsAll, Seated;
      SeatedRoom(u, rooms);
      ghost var before := rooms;
      rooms := rooms[u.roomId := rooms[u.roomId] - {u.userId}];
      forall v <- users | InRoom(v) ensures v != u && old(InRoom(v)) {
        RemovedSeats(before, u, v);
      }
    }

    lemma OwnsWhatItHolds(u: User)
      requires Valid() && InRoom(u)
      ensures u in users && OwnsAll(u) && owner - {u.producerTransport, u.consumerTransport} == Disowned(owner, {u})
    {
      hide GoodMedia, After, Clean;
      assert OwnsAll(u);
      ZeroNotOpen();
    }

    /** The users of the connection leave the room; the last one closes it. */
    method LeaveRoom(room: string, conn: nat)
      requires Valid() && room in rooms
      modifies this`trace, this`owner, this`rooms
      ensures Valid() && rooms == Swept(old(rooms), {room}, conn)
              && owner == StillOpen(old(owner), old(rooms), {room}, conn)
      ensures SeenOff(old(trace), trace, Gone(old(rooms)[room], conn, {}))
      ensures room !in rooms ==> trace != [] && trace[|trace| - 1] == CloseRouter(room)
    {
      hide WellPlaced, GoodMedia, TraceOk, Owned, NoStrays, Left, Gone, Disowned, Swept, StillOpen, Off, SeenOff;
      AllPlaced(room);
      var total := RemoveAll(room, rooms[room], conn);
      SweptOne(old(owner), old(rooms), room, conn);
      if total == 0 {
        ghost var before, gone := trace, Gone(old(rooms)[room], conn, {});
        assert SeenOff(old(trace), before, gone);
        CloseRoom(room);
        StillSeenOff(old(trace), old(trace), before, trace, gone);
      }
    }

    /** Only the users still to be looked at and those of other connections are left. */
    ghost predicate Sweeping(rs: RoomMap, o: map<nat, User>, room: string, here: map<string, User>,
                             conn: nat, todo: set<string>)
      reads this`rooms, this`owner
    {
      rooms == rs[room := Left(here, conn, todo)] && owner == Disowned(o, Gone(here, conn, todo))
    }

    method RemoveAll(room: string, here: map<string, User>, conn: nat) returns (total: nat)
      requires Valid() && room in rooms && rooms[room] == here
      requires forall k <- here :: here[k].roomId == room && here[k].userId == k
      modifies this`trace, this`owner, this`rooms
      ensures Valid() && rooms == old(rooms)[room := Left(here, conn, {})]
      ensures owner == Disowned(old(owner), Gone(here, conn, {})) && (total == 0 <==> Left(here, conn, {}) == map[])
      ensures SeenOff(old(trace), trace, Gone(here, conn, {}))
    {
      hide Valid, Left, Gone, Disowned, SeenOff;
      LeftAll(owner, here, conn);
      NobodySeenOff(trace);
      assert rooms == rooms[room := here];
      var todo := here.Keys;
      total := 0;
      while todo != {}
        invariant todo <= here.Keys && Valid() && Sweeping(old(rooms), old(owner), room, here, conn, todo)
        invariant SeenOff(old(trace), trace, Gone(here, conn, todo))
        invariant total == 0 <==> Left(here, conn, todo).Keys <= todo
        decreases |todo|
      {
        var k :| k in todo;
        LeftMore(old(owner), here, conn, todo, k);
        if here[k].conn == conn {
          RemoveNext(old(rooms), old(owner), old(trace), room, here, conn, todo, k, here[k]);
        } else {
          total := total + 1;
        }
        todo := todo - {k};
      }
    }

    method RemoveNext(ghost rs: RoomMap, ghost o: map<nat, User>, ghost start: seq<Command>, room: string,
                      here: map<string, User>, conn: nat, ghost todo: set<string>, k: string, u: User)
      requires Valid() && Sweeping(rs, o, room, here, conn, todo) && k in todo && k in here && here[k] == u
      requires u.conn == conn && u.roomId == room && u.userId == k && SeenOff(start, trace, Gone(here, conn, todo))
      modifies this`trace, this`owner, this`rooms
      ensures Valid() && Sweeping(rs, o, room, here, conn, todo - {k})
              && SeenOff(start, trace, Gone(here, conn, todo - {k}))
    {
      hide Valid, Left, Gone, Disowned, Farewell, SeenOff;
      LeftMore(o, here, conn, todo, k);
      ghost var gone := Gone(here, conn, todo);
      assert SeenOff(start, trace, gone);
      Remove(u);
      OneMoreSeenOff(start, old(trace), trace, gone, u);
    }

    /** A room order is how a map is ranged over: every room once. */
    ghost predicate RoomOrder(order: seq<string>)
      reads this`rooms
    {
      (forall r :: r in rooms <==> r in order) && forall i, j :: 0 <= i < j < |order| ==> order[i] != order[j]
    }

    lemma SeenOffMore(start: seq<Command>, before: seq<Command>, after: seq<Command>, rs: RoomMap, swept: set<string>,
                      r: string, conn: nat)
      requires SeenOff(start, before, GoneFrom(rs, swept, conn)) && r in rs
               && SeenOff(before, after, Gone(rs[r], conn, {}))
      ensures SeenOff(start, after, GoneFrom(rs, swept + {r}, conn))
    {
      hide Gone, GoneFrom, SeenOffUser;
      GoneMore(rs, swept, r, conn);
      StillSeenOff(start, start, before, after, GoneFrom(rs, swept, conn));
      StillSeenOff(start, before, after, after, Gone(rs[r], conn, {}));
      BothSeenOff(start, after, GoneFrom(rs, swept, conn), Gone(rs[r], conn, {}));
    }

    /** All rooms are gone through, whichever the connection is in. */
    method Depart(conn: nat, order: seq<string>)
      requires Valid() && RoomOrder(order)
      modifies this`trace, this`owner, this`rooms
      ensures Valid() && rooms == Swept(old(rooms), old(rooms.Keys), conn)
      ensures owner == StillOpen(old(owner), old(rooms), old(rooms.Keys), conn)
      ensures SeenOff(old(trace), trace, GoneFrom(old(rooms), old(rooms.Keys), conn))
    {
      hide Valid, Swept, StillOpen, SeenOff, Gone, GoneFrom;
      SweptNone(owner, rooms, conn);
      NobodySeenOff(trace);
      NobodyGone(rooms, conn);
      ghost var swept := {};
      for i := 0 to |order|
        invariant Valid() && rooms == Swept(old(rooms), swept, conn)
                  && owner == StillOpen(old(owner), old(rooms), swept, conn)
        invariant SeenOff(old(trace), trace, GoneFrom(old(rooms), swept, conn))
        invariant forall r :: r in swept <==> exists j :: 0 <= j < i && order[j] == r
      {
        assert order[i] !in swept;
        SweptMore(old(rooms), swept, order[i], conn);
        StillOpenMore(old(owner), old(rooms), swept, order[i], conn);
        StillThere(old(rooms), swept, order[i], conn);
        ghost var before, gone := trace, GoneFrom(old(rooms), swept, conn);
        assert SeenOff(old(trace), before, gone);
        LeaveRoom(order[i], conn);
        SeenOffMore(old(trace), before, trace, old(rooms), swept, order[i], conn);
        swept := swept + {order[i]};
      }
      assert swept == old(rooms.Keys);
    }

    /** The users of the room gone through last. */
    ghost function LastUsers(order: seq<string>): set<User>
      reads this`rooms
    {
      if order == [] then {} else UsersOf(order[|order| - 1])
    }

    ghost predicate Refreshed(order: seq<string>, r: string)
      reads this`rooms
    {
      r != "" && order != [] && r == order[|order| - 1] && Crowded(r)
    }

    /**
     ClearUserInfo. Nobody is without consumers for the others, but the refresh goes to the room gone through
     last, not to the rooms that lost a user: a room is meshed afterwards exactly if it was and lost nobody, or
     if it happens to be the last one and still has two users.
     */
    method Leave(conn: nat, order: seq<string>)
      requires Valid() && RoomOrder(order)
      modifies this`trace, this`lastId, this`owner, this`rooms, media`codecs, media`encodings
      modifies LastUsers(order)`consumerTransport, LastUsers(order)`consumers
      ensures Valid() && rooms == Swept(old(rooms), old(rooms.Keys), conn)
      ensures OnlyOf(LastUsers(order), StillOpen(old(owner), old(rooms), old(rooms.Keys), conn), old(lastId), owner)
      ensures Leaked() == Restricted(old(Leaked()), old(owner), rooms.Keys)
      ensures SeenOffAs(old(trace), trace, old(Partings(GoneFrom(rooms, rooms.Keys, conn))))
      ensures forall r <- rooms :: old(Covered(rooms[r])) ==>
                && Covered(rooms[r])
                && (Meshed(rooms[r]) <==> (old(Meshed(rooms[r])) && rooms[r] == old(rooms)[r]) || Refreshed(order, r))
    {
      hide WellPlaced, GoodMedia, TraceOk, Owned, NoStrays, Unseated, OnlyOf, Meshed, Covered, Swept, StillOpen, Left,
           Restricted, SeenOff, SeenOffAs;
      ghost var gone := GoneFrom(rooms, rooms.Keys, conn);
      ghost var partings := Partings(gone);
      RoomsKnown();
      LeaksRemain(owner, rooms, conn);
      Depart(conn, order);
      SeenOffEach(old(trace), trace, gone);
      assert Partings(gone) == partings;
      StaleRooms(old(rooms), conn);
      OnlyOfNone(LastUsers(order));
      if order != [] && order[|order| - 1] != "" {
        SweptUsers(old(rooms), old(rooms.Keys), conn, order[|order| - 1]);
        ghost var before := trace;
        RefreshOnly(order[|order| - 1]);
        StillSeenOffAs(old(trace), before, trace, partings);
      }
    }

    lemma RoomsKnown()
      requires TraceOk() && WellPlaced()
      ensures forall t <- owner :: owner[t].roomId in rooms
      ensures forall r <- rooms, k <- rooms[r] :: rooms[r][k].userId == k
    {
      OpenIsKnown(trace);
    }
  }
}
