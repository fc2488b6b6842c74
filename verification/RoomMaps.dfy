/** Who is in which room, whose transports are open, and what is left of them when a connection goes. */
module RoomMaps {
  import opened Mesh

  type RoomMap = map<string, map<string, User>>

  /** The room holds this very user under its id. */
  ghost predicate Seated(u: User, rooms: RoomMap) {
    u.roomId in rooms && u.userId in rooms[u.roomId] && rooms[u.roomId][u.userId] == u
  }

  /** Transports whose owner is no longer in a room. */
  ghost function Unseated(owner: map<nat, User>, rooms: RoomMap): set<nat> {
    set t <- owner | !Seated(owner[t], rooms)
  }

  /** The transports whose owner belongs to one of the rooms. */
  ghost function Restricted(ts: set<nat>, owner: map<nat, User>, rs: set<string>): set<nat> {
    set t <- ts | t in owner && owner[t].roomId in rs
  }

  ghost function UsersAt(rooms: RoomMap, room: string): map<string, User> {
    if room in rooms then rooms[room] else map[]
  }

  lemma StoredUsers(rooms: RoomMap, room: string, user: string, u: User)
    ensures UsersAt(rooms, room)[user := u].Values <= (if room in rooms then rooms[room].Values else {}) + {u}
  {}

  lemma StoredSeats(rooms: RoomMap, u: User, v: User)
    requires u.roomId in rooms && Seated(v, rooms[u.roomId := rooms[u.roomId][u.userId := u]])
    ensures v == u || Seated(v, rooms)
  {}

  lemma SeatedRoom(u: User, rooms: RoomMap)
    requires Seated(u, rooms)
    ensures u.roomId in rooms
  {}

  lemma RemovedSeats(rooms: RoomMap, u: User, v: User)
    requires u.roomId in rooms && Seated(v, rooms[u.roomId := rooms[u.roomId] - {u.userId}])
    ensures v != u && Seated(v, rooms)
  {}

  lemma DroppedSeats(rooms: RoomMap, room: string, v: User)
    requires Seated(v, rooms - {room})
    ensures v.roomId != room && Seated(v, rooms)
  {}

  /** Whoever is stored under an id displaces the user that was there. */
  lemma StoreUnseats(owner: map<nat, User>, rooms: RoomMap, t: nat, u: User)
    requires t !in owner && u !in owner.Values
    requires var here := UsersAt(rooms, u.roomId);
             forall k <- here :: here[k].roomId == u.roomId && here[k].userId == k
    ensures var here := UsersAt(rooms, u.roomId);
            Unseated(owner[t := u], rooms[u.roomId := here[u.userId := u]]) ==
            Unseated(owner, rooms) + Transports(owner, here, u.userId)
  {
    var rooms' := rooms[u.roomId := UsersAt(rooms, u.roomId)[u.userId := u]];
    assert Seated(u, rooms');
    forall x <- owner ensures Seated(owner[x], rooms') <==>
                              Seated(owner[x], rooms) && !(owner[x].roomId == u.roomId && owner[x].userId == u.userId) {
      assert owner[x] in owner.Values;
    }
  }

  /** The open transports of the user under an id. */
  ghost function Transports(owner: map<nat, User>, here: map<string, User>, id: string): set<nat> {
    set t <- owner | id in here && owner[t] == here[id]
  }

  // ----- Rooms after a connection is gone -----

  /** The users left once those of the connection are gone, except the ones not looked at yet. */
  ghost function Left(here: map<string, User>, conn: nat, todo: set<string>): map<string, User> {
    map k <- here | k in todo || here[k].conn != conn :: here[k]
  }

  ghost function Gone(here: map<string, User>, conn: nat, todo: set<string>): set<User> {
    set k <- here | k !in todo && here[k].conn == conn :: here[k]
  }

  ghost function Disowned(owner: map<nat, User>, gone: set<User>): map<nat, User> {
    map t <- owner | owner[t] !in gone :: owner[t]
  }

  ghost function Off(owner: map<nat, User>, room: string): map<nat, User> {
    map t <- owner | owner[t].roomId != room :: owner[t]
  }

  /** The given rooms lose the users of the connection, and are dropped when nobody is left. */
  ghost function Swept(rooms: RoomMap, rs: set<string>, conn: nat): RoomMap {
    map r <- rooms | r in rs ==> Left(rooms[r], conn, {}) != map[] ::
      if r in rs then Left(rooms[r], conn, {}) else rooms[r]
  }

  /** Its transports stay open: its room is still there, and it was not in it over this connection. */
  ghost predicate StaysOpen(u: User, rooms: RoomMap, rs: set<string>, conn: nat) {
    u.roomId in rs ==> u.roomId in Swept(rooms, rs, conn) && !(Seated(u, rooms) && u.conn == conn)
  }

  ghost function StillOpen(owner: map<nat, User>, rooms: RoomMap, rs: set<string>, conn: nat): map<nat, User> {
    map t <- owner | StaysOpen(owner[t], rooms, rs, conn) :: owner[t]
  }

  lemma SweptNone(owner: map<nat, User>, rooms: RoomMap, conn: nat)
    ensures Swept(rooms, {}, conn) == rooms && StillOpen(owner, rooms, {}, conn) == owner
  {}

  lemma StillThere(rooms: RoomMap, rs: set<string>, r: string, conn: nat)
    requires r !in rs && r in rooms
    ensures r in Swept(rooms, rs, conn) && Swept(rooms, rs, conn)[r] == rooms[r]
  {}

  /** The users of the connection in the given rooms. */
  ghost function GoneFrom(rooms: RoomMap, rs: set<string>, conn: nat): set<User> {
    set r <- rooms, k <- rooms[r] | r in rs && rooms[r][k].conn == conn :: rooms[r][k]
  }

  lemma NobodyGone(rooms: RoomMap, conn: nat)
    ensures GoneFrom(rooms, {}, conn) == {}
  {}

  lemma GoneMore(rooms: RoomMap, rs: set<string>, r: string, conn: nat)
    requires r in rooms
    ensures GoneFrom(rooms, rs + {r}, conn) == GoneFrom(rooms, rs, conn) + Gone(rooms[r], conn, {})
  {}

  lemma SweptMore(rooms: RoomMap, rs: set<string>, r: string, conn: nat)
    requires r !in rs
    ensures Swept(Swept(rooms, rs, conn), {r}, conn) == Swept(rooms, rs + {r}, conn)
  {}

  lemma StaysOpenMore(u: User, rooms: RoomMap, rs: set<string>, r: string, conn: nat)
    requires r !in rs
    ensures StaysOpen(u, rooms, rs + {r}, conn)
            <==> StaysOpen(u, rooms, rs, conn) && StaysOpen(u, Swept(rooms, rs, conn), {r}, conn)
  {
    hide Left;
  }

  lemma StillOpenMore(owner: map<nat, User>, rooms: RoomMap, rs: set<string>, r: string, conn: nat)
    requires r !in rs
    ensures StillOpen(StillOpen(owner, rooms, rs, conn), Swept(rooms, rs, conn), {r}, conn) ==
            StillOpen(owner, rooms, rs + {r}, conn)
  {
    hide StaysOpen, Swept;
    forall t <- owner {
      StaysOpenMore(owner[t], rooms, rs, r, conn);
    }
  }

  lemma SweptSeats(u: User, rooms: RoomMap, conn: nat)
    ensures Seated(u, Swept(rooms, rooms.Keys, conn)) <==> Seated(u, rooms) && u.conn != conn
  {
    if Seated(u, rooms) && u.conn != conn {
      assert u.userId in Left(rooms[u.roomId], conn, {});
    }
  }

  /** Leaked transports stay until their room is closed. */
  lemma LeaksRemain(owner: map<nat, User>, rooms: RoomMap, conn: nat)
    requires forall t <- owner :: owner[t].roomId in rooms
    ensures Unseated(StillOpen(owner, rooms, rooms.Keys, conn), Swept(rooms, rooms.Keys, conn)) ==
            Restricted(Unseated(owner, rooms), owner, Swept(rooms, rooms.Keys, conn).Keys)
  {
    hide Swept, Seated;
    forall t <- owner {
      SweptSeats(owner[t], rooms, conn);
    }
  }

  lemma SweptUsers(rooms: RoomMap, rs: set<string>, conn: nat, r: string)
    ensures r in Swept(rooms, rs, conn) ==> r in rooms && Swept(rooms, rs, conn)[r].Values <= rooms[r].Values
  {}

  /** A room that lost somebody, but not everybody, is stale: those left still consume from those gone. */
  lemma LeftIsStale(here: map<string, User>, conn: nat)
    requires Covered(here) && forall k <- here :: here[k].userId == k
    ensures var left := Left(here, conn, {});
            Covered(left) && (left != map[] ==> (Meshed(left) <==> Meshed(here) && left == here))
  {
    var left := Left(here, conn, {});
    forall k <- left ensures CoveredUser(left, left[k]) {
      assert CoveredUser(here, here[k]);
    }
    if left != here && left != map[] {
      var k :| k in left;
      var g :| g in here && g !in left by {
        assert left.Keys != here.Keys;
      }
      assert CoveredUser(here, here[k]) && g in here[k].consumers;
      assert !MeshedUser(left, left[k]);
    }
  }

  lemma SweptIsStale(rooms: RoomMap, conn: nat, r: string)
    requires r in Swept(rooms, rooms.Keys, conn) && Covered(rooms[r]) && forall k <- rooms[r] :: rooms[r][k].userId == k
    ensures var after := Swept(rooms, rooms.Keys, conn)[r];
            Covered(after) && (Meshed(after) <==> Meshed(rooms[r]) && after == rooms[r])
  {
    hide Left, Meshed, Covered;
    LeftIsStale(rooms[r], conn);
  }

  lemma StaleRooms(rooms: RoomMap, conn: nat)
    requires forall r <- rooms, k <- rooms[r] :: rooms[r][k].userId == k
    ensures var after := Swept(rooms, rooms.Keys, conn);
            && after.Keys <= rooms.Keys
            && forall r <- after :: Covered(rooms[r]) ==>
               Covered(after[r]) && (Meshed(after[r]) <==> Meshed(rooms[r]) && after[r] == rooms[r])
  {
    hide Left, Meshed, Covered;
    forall r <- Swept(rooms, rooms.Keys, conn) | Covered(rooms[r]) {
      SweptIsStale(rooms, conn, r);
    }
  }

  lemma LeftMore(owner: map<nat, User>, here: map<string, User>, conn: nat, todo: set<string>, k: string)
    requires k in todo && k in here
    ensures k in Left(here, conn, todo) && Left(here, conn, todo)[k] == here[k]
    ensures Left(here, conn, todo - {k}).Keys <= todo - {k}
            <==> here[k].conn == conn && Left(here, conn, todo).Keys <= todo
    ensures here[k].conn != conn ==> Left(here, conn, todo - {k}) == Left(here, conn, todo) &&
                                     Gone(here, conn, todo - {k}) == Gone(here, conn, todo)
    ensures here[k].conn == conn ==> Left(here, conn, todo - {k}) == Left(here, conn, todo) - {k} &&
                                     Gone(here, conn, todo - {k}) == Gone(here, conn, todo) + {here[k]} &&
                                     Disowned(owner, Gone(here, conn, todo - {k})) ==
                                     Disowned(Disowned(owner, Gone(here, conn, todo)), {here[k]})
  {
    if here[k].conn == conn {
      var keys := Left(here, conn, todo).Keys;
      assert Left(here, conn, todo - {k}).Keys == keys - {k};
      assert keys - {k} <= todo - {k} ==> forall x <- keys :: x == k || x in keys - {k};
    } else {
      assert k in Left(here, conn, todo - {k});
    }
  }

  lemma LeftAll(owner: map<nat, User>, here: map<string, User>, conn: nat)
    ensures Left(here, conn, here.Keys) == here && Gone(here, conn, here.Keys) == {}
            && Disowned(owner, Gone(here, conn, here.Keys)) == owner
  {}

  /** What became of one room. */
  lemma SweptOne(owner: map<nat, User>, rooms: RoomMap, room: string, conn: nat)
    requires room in rooms && forall k <- rooms[room] :: rooms[room][k].roomId == room && rooms[room][k].userId == k
    ensures var left, open := Left(rooms[room], conn, {}), Disowned(owner, Gone(rooms[room], conn, {}));
            && Swept(rooms, {room}, conn) == (if left == map[] then rooms - {room} else rooms[room := left])
            && StillOpen(owner, rooms, {room}, conn) == (if left == map[] then Off(open, room) else open)
  {
    var here := rooms[room];
    forall u: User ensures u in Gone(here, conn, {}) <==> Seated(u, rooms) && u.conn == conn && u.roomId == room {
      if Seated(u, rooms) && u.conn == conn && u.roomId == room {
        assert here[u.userId] in Gone(here, conn, {});
      }
    }
  }

  lemma SwapKeepsUnseated(owner: map<nat, User>, rooms: RoomMap, t: nat, t': nat, u: User)
    requires Seated(u, rooms) && (t in owner ==> owner[t] == u) && t' !in owner
    ensures Unseated((owner - {t})[t' := u], rooms) == Unseated(owner, rooms)
  {}
}
