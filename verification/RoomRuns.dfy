/** Whole runs of the signalling server against a book that only records who joined and who left. */
module RoomRuns {
  import opened Wrappers
  import opened BundleMids
  import opened RoomMedia
  import opened WorkerTrace
  import opened Mesh
  import opened DownOffer
  import opened RoomMaps
  import opened Rooms

  /** A leaving connection comes with the order in which the rooms are ranged over. */
  datatype Visit =
    | Comes(room: string, user: string, conn: nat, offer: Offer)
    | Goes(conn: nat, order: seq<string>)

  /** A user in the book: the connection it came over and what it offered. */
  datatype Seat = Seat(conn: nat, offer: Offer)

  type Roster = map<string, map<string, Seat>>

  /** The rooms where an id was taken over since they opened, and those where somebody has consumers for nobody. */
  datatype Book = Book(roster: Roster, reused: set<string>, stale: set<string>)

  function Others(here: map<string, Seat>, conn: nat): map<string, Seat> {
    map k <- here | here[k].conn != conn :: here[k]
  }

  function LeftOn(roster: Roster, conn: nat): Roster {
    map r <- roster | Others(roster[r], conn) != map[] :: Others(roster[r], conn)
  }

  predicate IsLast(r: string, order: seq<string>) {
    r != "" && order != [] && r == order[|order| - 1]
  }

  function Note(b: Book, e: Visit): Book {
    match e
    case Comes(room, user, conn, offer) =>
      var here := if room in b.roster then b.roster[room] else map[];
      Book(b.roster[room := here[user := Seat(conn, offer)]],
           if user in here then b.reused + {room} else b.reused,
           b.stale - {room})
    case Goes(conn, order) =>
      var left := LeftOn(b.roster, conn);
      Book(left, b.reused * left.Keys,
           set r <- left | (r in b.stale || left[r] != b.roster[r]) && !(IsLast(r, order) && |left[r]| >= 2))
  }

  function Replay(visits: seq<Visit>): Book {
    if visits == [] then Book(map[], {}, {}) else Note(Replay(visits[..|visits| - 1]), visits[|visits| - 1])
  }

  ghost predicate CanHappen(b: Book, e: Visit) {
    match e
    case Comes(_, _, _, offer) => offer.InRange()
    case Goes(_, order) =>
      (forall r :: r in b.roster <==> r in order) && forall i, j :: 0 <= i < j < |order| ==> order[i] != order[j]
  }

  ghost predicate Possible(visits: seq<Visit>) {
    forall i :: 0 <= i < |visits| ==> CanHappen(Replay(visits[..i]), visits[i])
  }

  // ----- What the book says about a server -----

  ghost function Seats(here: map<string, User>): map<string, Seat> {
    map k <- here :: Seat(here[k].conn, here[k].offer)
  }

  ghost function RosterOf(rooms: RoomMap): Roster {
    map r <- rooms :: Seats(rooms[r])
  }

  ghost function RoomsOf(owner: map<nat, User>, ts: set<nat>): set<string>
    requires ts <= owner.Keys
  {
    set t <- ts :: owner[t].roomId
  }

  /**
   The users of the rooms; leaked transports in exactly the rooms with a reused id; and everybody consumes from
   everybody else of the room, and from nobody else exactly in the rooms that are not stale.
   */
  ghost predicate Agrees(s: Server, b: Book)
    reads s, s.users, s.media
  {
    && s.Valid() && RosterOf(s.rooms) == b.roster
    && s.Leaked() <= s.owner.Keys && RoomsOf(s.owner, s.Leaked()) == b.reused
    && forall r <- s.rooms :: MeshAgrees(s.rooms[r], r !in b.stale)
  }

  ghost predicate MeshAgrees(here: map<string, User>, meshed: bool)
    reads here.Values`consumers, (set v <- here.Values, p <- v.producers.Values :: p)`mapped
  {
    Covered(here) && (Meshed(here) <==> meshed)
  }

  lemma LeftSeats(here: map<string, User>, conn: nat)
    ensures var left, others := Left(here, conn, {}), Others(Seats(here), conn);
            && Seats(left) == others && left.Keys == others.Keys
            && (left == map[] <==> others == map[]) && (left == here <==> others == Seats(here))
  {}

  lemma SweptRoster(rooms: RoomMap, conn: nat)
    ensures RosterOf(Swept(rooms, rooms.Keys, conn)) == LeftOn(RosterOf(rooms), conn)
  {
    hide Left, Seats, Others;
    forall r <- rooms {
      LeftSeats(rooms[r], conn);
    }
  }

  lemma StoredRoster(rooms: RoomMap, room: string, user: string, u: User)
    ensures RosterOf(rooms[room := UsersAt(rooms, room)[user := u]]) ==
            var here := if room in rooms then RosterOf(rooms)[room] else map[];
            RosterOf(rooms)[room := here[user := Seat(u.conn, u.offer)]]
  {
    assert Seats(UsersAt(rooms, room)[user := u]) == Seats(UsersAt(rooms, room))[user := Seat(u.conn, u.offer)];
    assert Seats(map[]) == map[];
  }

  /** Transports that did not change hands are in the same rooms. */
  lemma SameRooms(us: set<User>, o: map<nat, User>, id: nat, o': map<nat, User>, ts: set<nat>)
    requires Server.OnlyOf(us, o, id, o') && ts <= o.Keys && ts <= o'.Keys
    ensures RoomsOf(o', ts) == RoomsOf(o, ts)
  {}

  lemma OtherRooms(o: map<nat, User>, t: nat, u: User, ts: set<nat>)
    requires ts <= o.Keys && t !in o
    ensures RoomsOf(o[t := u], ts) == RoomsOf(o, ts)
  {}

  lemma BeforeComing(s: Server, room: string, user: string)
    requires s.Valid()
    ensures forall k <- UsersAt(s.rooms, room) :: UsersAt(s.rooms, room)[k].roomId == room
    ensures user in UsersAt(s.rooms, room) ==> exists t <- s.owner :: s.owner[t] == UsersAt(s.rooms, room)[user]
    ensures forall r <- s.rooms :: r != room ==> s.rooms[r].Values !! s.UsersOf(room)
    ensures Transports(s.owner, UsersAt(s.rooms, room), user) <= s.owner.Keys
  {
    if user in UsersAt(s.rooms, room) {
      var u := UsersAt(s.rooms, room)[user];
      assert s.InRoom(u) && u in s.users;
      assert s.OwnsAll(u);
    }
  }

  lemma TakenOver(o: map<nat, User>, rooms: RoomMap, room: string, user: string, ts: set<nat>)
    requires ts <= o.Keys && forall k <- UsersAt(rooms, room) :: UsersAt(rooms, room)[k].roomId == room
    requires user in UsersAt(rooms, room) ==> exists t <- o :: o[t] == UsersAt(rooms, room)[user]
    ensures RoomsOf(o, ts + Transports(o, UsersAt(rooms, room), user)) ==
            RoomsOf(o, ts) + if user in UsersAt(rooms, room) then {room} else {}
  {
    if user in UsersAt(rooms, room) {
      var t :| t in o && o[t] == UsersAt(rooms, room)[user];
      assert t in Transports(o, UsersAt(rooms, room), user);
    }
  }

  // ----- Runs -----

  method Come(s: Server, ghost b: Book, e: Visit)
    requires e.Comes? && CanHappen(b, e) && Agrees(s, b)
    modifies s, s.media`codecs, s.media`encodings, s.UsersOf(e.room)`consumerTransport, s.UsersOf(e.room)`consumers
    ensures Agrees(s, Note(b, e)) && fresh(s.users - old(s.users)) && fresh(s.media - old(s.media))
  {
    hide Server.Valid, RosterOf, RoomsOf, Server.OnlyOf, Transports, UsersAt, Meshed, Covered, Server.Leaked,
         Server.Entering;
    BeforeComing(s, e.room, e.user);
    TakenOver(s.owner, s.rooms, e.room, e.user, s.Leaked());
    var u := s.Join(e.room, e.user, e.conn, e.offer);
    StoredRoster(old(s.rooms), e.room, e.user, u);
    KnownRooms(old(s.rooms), e.room, e.user);
    LeakedOwned(s);
    OtherRooms(old(s.owner), u.producerTransport, u, s.Leaked());
    SameRooms(s.UsersOf(e.room), old(s.owner)[u.producerTransport := u], u.producerTransport + 2, s.owner, s.Leaked());
    MeshedIsCovered(s.rooms[e.room]);
    forall r <- s.rooms ensures MeshAgrees(s.rooms[r], r !in Note(b, e).stale) {
      if r != e.room {
        assert old(MeshAgrees(s.rooms[r], r !in b.stale));
      }
    }
  }

  lemma LeakedOwned(s: Server)
    ensures s.Leaked() <= s.owner.Keys
  {}

  lemma KnownRooms(rooms: RoomMap, room: string, user: string)
    ensures room in RosterOf(rooms) <==> room in rooms
    ensures user in UsersAt(rooms, room) <==> room in rooms && user in RosterOf(rooms)[room]
  {}

  lemma LeftRooms(o: map<nat, User>, ts: set<nat>, rooms: set<string>)
    requires ts <= o.Keys
    ensures Restricted(ts, o, rooms) <= o.Keys && RoomsOf(o, Restricted(ts, o, rooms)) == RoomsOf(o, ts) * rooms
  {}

  /** Leaked transports of the rooms that remain are kept, in those rooms. */
  lemma LeakRooms(s: Server, conn: nat)
    requires s.Valid()
    ensures var after := Swept(s.rooms, s.rooms.Keys, conn);
            var kept := StillOpen(s.owner, s.rooms, s.rooms.Keys, conn);
            var ts := Restricted(s.Leaked(), s.owner, after.Keys);
            && ts <= kept.Keys && RoomsOf(kept, ts) == RoomsOf(s.owner, s.Leaked()) * after.Keys
  {
    hide Swept;
    s.RoomsKnown();
    LeaksRemain(s.owner, s.rooms, conn);
    LeftRooms(s.owner, s.Leaked(), Swept(s.rooms, s.rooms.Keys, conn).Keys);
  }

  method Go(s: Server, ghost b: Book, e: Visit)
    requires e.Goes? && CanHappen(b, e) && Agrees(s, b)
    modifies s`trace, s`lastId, s`owner, s`rooms, s.media`codecs, s.media`encodings
    modifies s.LastUsers(e.order)`consumerTransport, s.LastUsers(e.order)`consumers
    ensures Agrees(s, Note(b, e))
  {
    hide Server.Valid, RosterOf, RoomsOf, Server.OnlyOf, Meshed, Covered, Server.Leaked, Swept, StillOpen, LeftOn,
         Restricted;
    RosterKeys(s.rooms);
    LeakRooms(s, e.conn);
    SweptRoster(s.rooms, e.conn);
    s.Leave(e.conn, e.order);
    LeakedOwned(s);
    RosterKeys(s.rooms);
    ghost var open := StillOpen(old(s.owner), old(s.rooms), old(s.rooms.Keys), e.conn);
    SameRooms(s.LastUsers(e.order), open, old(s.lastId), s.owner, s.Leaked());
    forall r <- s.rooms ensures MeshAgrees(s.rooms[r], r !in Note(b, e).stale) {
      SweptSame(old(s.rooms), e.conn, r);
      assert old(MeshAgrees(s.rooms[r], r !in b.stale));
    }
  }

  lemma SweptSame(rooms: RoomMap, conn: nat, r: string)
    requires r in Swept(rooms, rooms.Keys, conn)
    ensures r in rooms && r in RosterOf(rooms) && r in LeftOn(RosterOf(rooms), conn)
    ensures var after, left := Swept(rooms, rooms.Keys, conn)[r], LeftOn(RosterOf(rooms), conn)[r];
            |after| == |left| && (after == rooms[r] <==> left == RosterOf(rooms)[r])
  {
    hide Left, Seats, Others;
    LeftSeats(rooms[r], conn);
    assert |Left(rooms[r], conn, {}).Keys| == |Others(Seats(rooms[r]), conn).Keys|;
  }

  lemma RosterKeys(rooms: RoomMap)
    ensures RosterOf(rooms).Keys == rooms.Keys
  {}

  /** Every possible run, from the start: the server agrees with the book. */
  method Serve(visits: seq<Visit>) returns (s: Server)
    requires Possible(visits)
    ensures fresh(s) && Agrees(s, Replay(visits))
  {
    hide Agrees, Note, CanHappen;
    s := new Server();
    NothingYet(s);
    for i := 0 to |visits|
      invariant fresh(s) && fresh(s.users) && fresh(s.media) && Agrees(s, Replay(visits[..i]))
    {
      assert visits[..i + 1][..i] == visits[..i];
      AgreeingUsers(s, Replay(visits[..i]));
      if visits[i].Comes? {
        Come(s, Replay(visits[..i]), visits[i]);
      } else {
        Go(s, Replay(visits[..i]), visits[i]);
      }
    }
    assert visits[..|visits|] == visits;
  }

  lemma NothingYet(s: Server)
    requires s.Valid() && s.rooms == map[] && s.Leaked() == {}
    ensures Agrees(s, Replay([]))
  {}

  lemma AgreeingUsers(s: Server, b: Book)
    requires Agrees(s, b)
    ensures forall r :: s.UsersOf(r) <= s.users
    ensures forall order :: s.LastUsers(order) <= s.users
  {}

  /** In every state a run can reach, consumers are tied to what the other user offered when it joined. */
  lemma ConsumedAsOffered(s: Server, b: Book, r: string, k: string, j: string, c: nat)
    requires Agrees(s, b) && r in s.rooms && k in s.rooms[r] && j in s.rooms[r] && j != k
    requires j in s.rooms[r][k].consumers && c in s.rooms[r][k].consumers[j]
    ensures r in b.roster && j in b.roster[r]
    ensures var consumer, offer := s.rooms[r][k].consumers[j][c], b.roster[r][j].offer;
            && consumer.consumableSsrcs == offer.Mapped(consumer.kind)
            && consumer.simulcast == offer.HasLayers(consumer.kind)
            && (consumer.kind == Audio ==> consumer.consumableSsrcs == [(offer.audio + 1) % 4294967296])
            && (consumer.kind == Video && offer.video.Single? ==>
                  consumer.consumableSsrcs == [(offer.video.ssrc + 1) % 4294967296])
            && (consumer.kind == Audio ==> consumer.codecs == [MediaCodec(100, None)])
            && (consumer.kind == Video ==> consumer.codecs == [MediaCodec(101, None), MediaCodec(102, Some(101))])
  {
    hide Server.TraceOk, Server.GoodMedia, Server.Owned, Server.NoStrays, Meshed, MeshAgrees, Mirrors;
    var here := s.rooms[r];
    assert MeshAgrees(here, r !in b.stale);
    assert here[k].userId == k && here[j] in s.users;
    CoveredMirrors(here, r !in b.stale, k, j);
    s.OfferedMedia(here[j]);
    MirrorsOffer(here[k].consumers[j], here[j], c);
  }

  lemma CoveredMirrors(here: map<string, User>, meshed: bool, k: string, j: string)
    requires MeshAgrees(here, meshed) && k in here && j in here && j != k && here[k].userId == k
    ensures j in here[k].consumers && Mirrors(here[k].consumers[j], here[j].producers)
  {
    hide Mirrors, Meshed;
    assert CoveredUser(here, here[k]);
  }

  lemma MirrorsOffer(cs: map<nat, Consumer>, u: User, c: nat)
    requires Mirrors(cs, u.producers) && c in cs && u.Offered() && forall p <- u.producers.Values :: p.Good()
    ensures cs[c].consumableSsrcs == u.offer.Mapped(cs[c].kind) && cs[c].simulcast == u.offer.HasLayers(cs[c].kind)
    ensures cs[c].codecs == ConsumedCodecs(cs[c].kind)
  {
    hide Producer.Good, ConsumedCodecs, OfferedCodecs, Producer.FitsEncoding;
    var p := u.producers[cs[c].producerId];
    assert p in u.producers.Values;
  }

  lemma NothingLeaksIff(s: Server, b: Book)
    requires Agrees(s, b)
    ensures s.Leaked() == {} <==> b.reused == {}
  {
    hide Server.Valid, Server.Leaked, MeshAgrees;
    if s.Leaked() != {} {
      var t :| t in s.Leaked();
      assert s.owner[t].roomId in RoomsOf(s.owner, s.Leaked());
    }
  }

  /** While no id is reused, the open transports of the worker are exactly those recorded on users in rooms. */
  lemma NothingLeaks(s: Server, b: Book)
    requires Agrees(s, b) && b.reused == {}
    ensures forall t :: t in After(s.trace).open <==> s.Recorded(t)
  {
    NothingLeaksIff(s, b);
    assert s.Valid();
    hide Agrees, Server.Valid, After, Server.Leaked, Server.Recorded;
    forall t: nat ensures t in After(s.trace).open <==> s.Recorded(t) {
      s.Conservation(t);
    }
  }

  /** In a room that is not stale, every user's offer lists the mids of its sections, two per other user. */
  lemma OfferConsistent(s: Server, b: Book, r: string, k: string, remotes: seq<string>, orders: seq<seq<nat>>)
    requires Agrees(s, b) && r in s.rooms && r !in b.stale && k in s.rooms[r]
    requires RangesOver(s.rooms[r][k].consumers, remotes, orders)
    ensures var kinds := OfferKinds(s.rooms[r][k].consumers, remotes, orders);
            Mids(kinds, 0) == Range(0, Total(kinds)) == Range(0, 2 * (|b.roster[r]| - 1))
  {
    hide Server.TraceOk, Server.GoodMedia, Server.Owned, Server.NoStrays, Server.Leaked, MeshAgrees, RangesOver,
         OfferKinds;
    var here := s.rooms[r];
    assert MeshAgrees(here, true);
    s.PairedMedia();
    MeshedFully(here, k);
    MeshedOffer(here, here[k], remotes, orders);
    SameSize(here);
    assert b.roster[r] == Seats(here);
  }

  lemma MeshedFully(here: map<string, User>, k: string)
    requires MeshAgrees(here, true) && k in here
    ensures MeshedUser(here, here[k])
  {
    hide MeshedUser, Covered;
  }

  lemma SameSize(here: map<string, User>)
    ensures |Seats(here)| == |here|
  {
    assert Seats(here).Keys == here.Keys;
  }

  // ----- Runs that leak, and runs that leave a room stale -----

  lemma ReplayMore(visits: seq<Visit>, e: Visit)
    ensures Replay(visits + [e]) == Note(Replay(visits), e)
  {
    assert (visits + [e])[..|visits|] == visits;
  }

  lemma Advance(visits: seq<Visit>, b: Book, e: Visit)
    requires Possible(visits) && Replay(visits) == b && CanHappen(b, e)
    ensures Possible(visits + [e]) && Replay(visits + [e]) == Note(b, e)
  {
    hide Note, CanHappen;
    var more := visits + [e];
    ReplayMore(visits, e);
    forall i | 0 <= i < |more| ensures CanHappen(Replay(more[..i]), more[i]) {
      assert more[..i] == if i < |visits| then visits[..i] else visits;
    }
  }

  lemma NothingVisited()
    ensures Replay([]) == Book(map[], {}, {}) && Possible([])
  {}

  lemma NotedTwice(room: string, user: string, conn: nat, conn': nat, offer: Offer)
    ensures var b := Note(Book(map[], {}, {}), Comes(room, user, conn, offer));
            Note(b, Comes(room, user, conn', offer)).reused == {room}
  {}

  ghost function TwiceIn(room: string, user: string, conn: nat, conn': nat, offer: Offer): seq<Visit> {
    [] + [Comes(room, user, conn, offer)] + [Comes(room, user, conn', offer)]
  }

  /** Whoever joins twice under one id leaves leaked transports behind. */
  lemma ReusedId(room: string, user: string, conn: nat, conn': nat, offer: Offer)
    requires offer.InRange()
    ensures var visits := TwiceIn(room, user, conn, conn', offer); Possible(visits) && Replay(visits).reused == {room}
  {
    var e, e', b := Comes(room, user, conn, offer), Comes(room, user, conn', offer), Book(map[], {}, {});
    NothingVisited();
    NotedTwice(room, user, conn, conn', offer);
    hide Replay, Possible, Note;
    Advance([], b, e);
    Advance([] + [e], Note(b, e), e');
  }

  /** On the server: after that run some transport is leaked. */
  lemma ReusedIdLeaks(s: Server, room: string, user: string, conn: nat, conn': nat, offer: Offer)
    requires offer.InRange() && Agrees(s, Replay(TwiceIn(room, user, conn, conn', offer)))
    ensures s.Leaked() != {}
  {
    hide Agrees, Replay;
    ReusedId(room, user, conn, conn', offer);
    NothingLeaksIff(s, Replay(TwiceIn(room, user, conn, conn', offer)));
  }

  /** A room with three users, and another room with one. */
  ghost predicate ThreeAndOne(b: Book, r: string, q: string, x: string, y: string, z: string, w: string, offer: Offer) {
    var here := map[x := Seat(1, offer), y := Seat(2, offer), z := Seat(3, offer)];
    b == Book(map[r := here, q := map[w := Seat(4, offer)]], {}, {})
  }

  ghost function Scene(r: string, q: string, x: string, y: string, z: string, w: string, offer: Offer): seq<Visit> {
    [] + [Comes(r, x, 1, offer)] + [Comes(r, y, 2, offer)] + [Comes(r, z, 3, offer)] + [Comes(q, w, 4, offer)]
  }

  /** Three users in one room and one in another: when the first leaves, the other room is refreshed. */
  lemma StaleRoom(r: string, q: string, x: string, y: string, z: string, w: string, offer: Offer)
    requires offer.InRange() && r != q && x != y && y != z && x != z
    ensures var visits := Scene(r, q, x, y, z, w, offer) + [Goes(1, [r, q])];
            Possible(visits) && Replay(visits).stale == {r} && r in Replay(visits).roster
            && Replay(visits).roster[r].Keys == {y, z}
  {
    hide Possible, Replay, Scene;
    var book := FirstVisits(r, q, x, y, z, w, offer);
    LastVisit(book, r, q, x, y, z, w, offer);
    hide Note, CanHappen;
    Advance(Scene(r, q, x, y, z, w, offer), book, Goes(1, [r, q]));
  }

  /** On the server: the room still has two users, and they have consumers for the one who left. */
  lemma StaleRoomNotMeshed(s: Server, r: string, q: string, x: string, y: string, z: string, w: string, offer: Offer)
    requires offer.InRange() && r != q && x != y && y != z && x != z
    requires Agrees(s, Replay(Scene(r, q, x, y, z, w, offer) + [Goes(1, [r, q])]))
    ensures r in s.rooms && s.rooms[r].Keys == {y, z} && Covered(s.rooms[r]) && !Meshed(s.rooms[r])
  {
    hide Replay, Scene, Meshed, Covered, Server.Valid;
    StaleRoom(r, q, x, y, z, w, offer);
    var b := Replay(Scene(r, q, x, y, z, w, offer) + [Goes(1, [r, q])]);
    assert r in b.roster && r in s.rooms;
    assert MeshAgrees(s.rooms[r], r !in b.stale);
  }

  lemma FirstVisits(r: string, q: string, x: string, y: string, z: string, w: string, offer: Offer) returns (book: Book)
    requires offer.InRange() && r != q && x != y && y != z && x != z
    ensures ThreeAndOne(book, r, q, x, y, z, w, offer)
    ensures Possible(Scene(r, q, x, y, z, w, offer)) && Replay(Scene(r, q, x, y, z, w, offer)) == book
  {
    var e0, e1, e2, e3 := Comes(r, x, 1, offer), Comes(r, y, 2, offer), Comes(r, z, 3, offer), Comes(q, w, 4, offer);
    var b0 := Book(map[], {}, {});
    var b1 := Note(b0, e0);
    var b2 := Note(b1, e1);
    var b3 := Note(b2, e2);
    book := Note(b3, e3);
    NotedScene(r, q, x, y, z, w, offer);
    NothingVisited();
    hide Replay, Possible, Note, ThreeAndOne;
    Advance([], b0, e0);
    Advance([] + [e0], b1, e1);
    Advance([] + [e0] + [e1], b2, e2);
    Advance([] + [e0] + [e1] + [e2], b3, e3);
  }

  lemma NotedScene(r: string, q: string, x: string, y: string, z: string, w: string, offer: Offer)
    requires r != q && x != y && y != z && x != z
    ensures var b := Note(Note(Book(map[], {}, {}), Comes(r, x, 1, offer)), Comes(r, y, 2, offer));
            var b := Note(b, Comes(r, z, 3, offer));
            ThreeAndOne(Note(b, Comes(q, w, 4, offer)), r, q, x, y, z, w, offer)
  {}

  lemma LastVisit(book: Book, r: string, q: string, x: string, y: string, z: string, w: string, offer: Offer)
    requires r != q && x != y && y != z && x != z && ThreeAndOne(book, r, q, x, y, z, w, offer)
    ensures var e := Goes(1, [r, q]);
            CanHappen(book, e) && Note(book, e).stale == {r} && r in Note(book, e).roster
            && Note(book, e).roster[r].Keys == {y, z}
  {
    var a := map[x := Seat(1, offer), y := Seat(2, offer), z := Seat(3, offer)];
    OthersOfThree(x, y, z, offer);
    OthersOfOne(w, offer);
    TwoRooms(r, q, a, map[w := Seat(4, offer)], 1);
  }

  lemma OthersOfThree(x: string, y: string, z: string, offer: Offer)
    requires x != y && y != z && x != z
    ensures Others(map[x := Seat(1, offer), y := Seat(2, offer), z := Seat(3, offer)], 1) ==
            map[y := Seat(2, offer), z := Seat(3, offer)] != map[]
    ensures map[y := Seat(2, offer), z := Seat(3, offer)] !=
            map[x := Seat(1, offer), y := Seat(2, offer), z := Seat(3, offer)]
  {
    var left := map[y := Seat(2, offer), z := Seat(3, offer)];
    assert x !in left && y in left;
  }

  lemma OthersOfOne(w: string, offer: Offer)
    ensures Others(map[w := Seat(4, offer)], 1) == map[w := Seat(4, offer)] != map[]
  {
    assert w in map[w := Seat(4, offer)];
  }

  /** The first of two rooms loses somebody but not everybody, the second nobody: the second is refreshed. */
  lemma TwoRooms(r: string, q: string, a: map<string, Seat>, b: map<string, Seat>, conn: nat)
    requires r != q && Others(a, conn) != a && Others(a, conn) != map[] && Others(b, conn) == b != map[]
    ensures var book, e := Book(map[r := a, q := b], {}, {}), Goes(conn, [r, q]);
            && CanHappen(book, e)
            && Note(book, e) == Book(map[r := Others(a, conn), q := b], {}, {r})
  {
    hide Others;
    var roster := map[r := a, q := b];
    assert LeftOn(roster, conn) == map[r := Others(a, conn), q := b];
    assert [r, q][0] == r && [r, q][1] == q;
  }
}
