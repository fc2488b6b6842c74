/** What the book of a run says, read off the visits themselves. */
module RoomHistory {
  import opened RoomRuns

  lemma Snoc(visits: seq<Visit>)
    requires visits != []
    ensures var n := |visits| - 1; Replay(visits) == Note(Replay(visits[..n]), visits[n])
  {}

  lemma Earlier(visits: seq<Visit>, n: nat, i: nat)
    requires i <= n <= |visits|
    ensures visits[..n][..i] == visits[..i]
  {}

  // ----- Who is there -----

  ghost predicate Present(b: Book, room: string, user: string, seat: Seat) {
    room in b.roster && user in b.roster[room] && b.roster[room][user] == seat
  }

  /** The user's connection goes, or somebody comes to the room under the same id. */
  ghost predicate Ousts(e: Visit, room: string, user: string, conn: nat) {
    match e
    case Comes(r, u, _, _) => r == room && u == user
    case Goes(c, _) => c == conn
  }

  ghost predicate CameAt(visits: seq<Visit>, room: string, user: string, seat: Seat, i: nat) {
    && i < |visits| && visits[i] == Comes(room, user, seat.conn, seat.offer)
    && forall j :: i < j < |visits| ==> !Ousts(visits[j], room, user, seat.conn)
  }

  ghost predicate Stayed(visits: seq<Visit>, room: string, user: string, seat: Seat) {
    exists i: nat :: CameAt(visits, room, user, seat, i)
  }

  lemma NotePresent(b: Book, e: Visit, room: string, user: string, seat: Seat)
    ensures Present(Note(b, e), room, user, seat) <==>
            e == Comes(room, user, seat.conn, seat.offer)
            || (Present(b, room, user, seat) && !Ousts(e, room, user, seat.conn))
  {
    if e.Goes? && room in b.roster && user in b.roster[room] && b.roster[room][user].conn != e.conn {
      assert user in Others(b.roster[room], e.conn);
    }
  }

  lemma StayedMore(visits: seq<Visit>, n: nat, room: string, user: string, seat: Seat)
    requires n + 1 == |visits|
    ensures Stayed(visits, room, user, seat) <==>
            visits[n] == Comes(room, user, seat.conn, seat.offer)
            || (Stayed(visits[..n], room, user, seat) && !Ousts(visits[n], room, user, seat.conn))
  {
    assert CameAt(visits, room, user, seat, n) <==> visits[n] == Comes(room, user, seat.conn, seat.offer);
    forall i: nat | i < n
      ensures CameAt(visits, room, user, seat, i) <==>
              CameAt(visits[..n], room, user, seat, i) && !Ousts(visits[n], room, user, seat.conn)
    {
      assert forall j :: i < j < n ==> visits[..n][j] == visits[j];
    }
  }

  /** A user is in a room exactly if it came, and since then neither its connection went nor its id was taken over. */
  lemma {:induction false} PresentIff(visits: seq<Visit>, room: string, user: string, seat: Seat)
    ensures Present(Replay(visits), room, user, seat) <==> Stayed(visits, room, user, seat)
  {
    if visits != [] {
      hide Note, Ousts, Stayed, Present;
      var n := |visits| - 1;
      PresentIff(visits[..n], room, user, seat);
      Snoc(visits);
      NotePresent(Replay(visits[..n]), visits[n], room, user, seat);
      StayedMore(visits, n, room, user, seat);
    }
  }

  // ----- Where transports leak, and where consumers are stale -----

  ghost predicate TakesOver(b: Book, e: Visit, room: string) {
    e.Comes? && e.room == room && room in b.roster && e.user in b.roster[room]
  }

  /** Some of the room, but not all, go. */
  ghost predicate Loses(b: Book, e: Visit, room: string) {
    && e.Goes? && room in b.roster
    && (exists k <- b.roster[room] :: b.roster[room][k].conn == e.conn)
    && (exists k <- b.roster[room] :: b.roster[room][k].conn != e.conn)
  }

  /** Somebody comes to the room, or it is ranged over last while some connection goes, and two are left. */
  ghost predicate Refreshes(b: Book, e: Visit, room: string) {
    match e
    case Comes(r, _, _, _) => r == room
    case Goes(_, order) =>
      && order != [] && order[|order| - 1] == room && room != ""
      && room in Note(b, e).roster && |Note(b, e).roster[room]| >= 2
  }

  ghost predicate WellKept(b: Book) {
    b.reused <= b.roster.Keys && b.stale <= b.roster.Keys
  }

  lemma {:induction false} ReplayWellKept(visits: seq<Visit>)
    ensures WellKept(Replay(visits))
  {
    if visits != [] {
      ReplayWellKept(visits[..|visits| - 1]);
    }
  }

  lemma NoteReused(b: Book, e: Visit, room: string)
    requires WellKept(b)
    ensures room in Note(b, e).reused <==>
            TakesOver(b, e, room) || (room in b.reused && room in Note(b, e).roster)
  {}

  lemma NoteStale(b: Book, e: Visit, room: string)
    requires WellKept(b)
    ensures room in Note(b, e).stale <==>
            room in Note(b, e).roster && !Refreshes(b, e, room) && (room in b.stale || Loses(b, e, room))
  {
    if e.Goes? && room in b.roster {
      var here, left := b.roster[room], Others(b.roster[room], e.conn);
      assert left == here <==> forall k <- here :: here[k].conn != e.conn;
      assert left == map[] <==> forall k <- here :: here[k].conn == e.conn by {
        assert forall k <- here :: here[k].conn != e.conn ==> k in left;
      }
    }
  }

  /** An id was taken over by visit i, and the room was never empty since. */
  ghost predicate TakenAt(visits: seq<Visit>, room: string, i: nat) {
    && i < |visits| && TakesOver(Replay(visits[..i]), visits[i], room)
    && forall j :: i + 1 < j <= |visits| ==> room in Replay(visits[..j]).roster
  }

  /** Visit i lost the room somebody, and since then it was neither empty nor refreshed. */
  ghost predicate LostAt(visits: seq<Visit>, room: string, i: nat) {
    && i < |visits| && Loses(Replay(visits[..i]), visits[i], room)
    && forall j :: i <= j < |visits| ==> Lasts(visits, room, j)
  }

  ghost predicate Lasts(visits: seq<Visit>, room: string, j: nat)
    requires j < |visits|
  {
    room in Replay(visits[..j + 1]).roster && !Refreshes(Replay(visits[..j]), visits[j], room)
  }

  ghost predicate EverTaken(visits: seq<Visit>, room: string) {
    exists i: nat :: TakenAt(visits, room, i)
  }

  ghost predicate EverLost(visits: seq<Visit>, room: string) {
    exists i: nat :: LostAt(visits, room, i)
  }

  lemma TakenMore(visits: seq<Visit>, n: nat, room: string)
    requires n + 1 == |visits|
    ensures EverTaken(visits, room) <==>
            TakesOver(Replay(visits[..n]), visits[n], room)
            || (EverTaken(visits[..n], room) && room in Replay(visits).roster)
  {
    hide Replay, TakesOver;
    assert visits[..|visits|] == visits;
    assert TakenAt(visits, room, n) <==> TakesOver(Replay(visits[..n]), visits[n], room);
    forall i: nat | i < n
      ensures TakenAt(visits, room, i) <==> TakenAt(visits[..n], room, i) && room in Replay(visits).roster
    {
      Earlier(visits, n, i);
      forall j: nat | j <= n ensures visits[..n][..j] == visits[..j] { Earlier(visits, n, j); }
    }
  }

  lemma LastsBefore(visits: seq<Visit>, n: nat, room: string, j: nat)
    requires j < n <= |visits|
    ensures Lasts(visits[..n], room, j) <==> Lasts(visits, room, j)
  {
    Earlier(visits, n, j);
    Earlier(visits, n, j + 1);
  }

  lemma LostMore(visits: seq<Visit>, n: nat, room: string)
    requires n + 1 == |visits|
    ensures EverLost(visits, room) <==>
            Lasts(visits, room, n) && (Loses(Replay(visits[..n]), visits[n], room) || EverLost(visits[..n], room))
  {
    hide Replay, Loses, Lasts;
    assert LostAt(visits, room, n) <==> Loses(Replay(visits[..n]), visits[n], room) && Lasts(visits, room, n);
    forall i: nat | i < n
      ensures LostAt(visits, room, i) <==> LostAt(visits[..n], room, i) && Lasts(visits, room, n)
    {
      Earlier(visits, n, i);
      forall j: nat | j < n ensures Lasts(visits[..n], room, j) <==> Lasts(visits, room, j) {
        LastsBefore(visits, n, room, j);
      }
    }
  }

  /** Transports leak exactly in the rooms where an id was taken over and which were never empty since. */
  lemma {:induction false} ReusedIff(visits: seq<Visit>, room: string)
    ensures room in Replay(visits).reused <==> EverTaken(visits, room)
  {
    if visits != [] {
      hide Note, TakesOver, EverTaken;
      var n := |visits| - 1;
      ReusedIff(visits[..n], room);
      ReplayWellKept(visits[..n]);
      Snoc(visits);
      NoteReused(Replay(visits[..n]), visits[n], room);
      TakenMore(visits, n, room);
    }
  }

  /** A room is stale exactly if it lost somebody and was neither emptied nor refreshed then or later. */
  lemma {:induction false} StaleIff(visits: seq<Visit>, room: string)
    ensures room in Replay(visits).stale <==> EverLost(visits, room)
  {
    if visits != [] {
      hide Note, Loses, Refreshes, EverLost;
      var n := |visits| - 1;
      StaleIff(visits[..n], room);
      ReplayWellKept(visits[..n]);
      Snoc(visits);
      assert visits[..n + 1] == visits;
      NoteStale(Replay(visits[..n]), visits[n], room);
      LostMore(visits, n, room);
    }
  }
}
