/** The commands sent to the worker, and what they leave open there. */
module WorkerTrace {

  /** Generated ids are positive; 0 is the empty string. */
  datatype Command =
    | CreateRouter(room: string)
    | CloseRouter(room: string)
    | CreateTransport(room: string, transport: nat)
    | CloseTransport(room: string, transport: nat)
    | Produce(transport: nat, producer: nat)
    | CloseProducer(transport: nat, producer: nat)
    | CloseConsumer(transport: nat, consumer: nat)

  /** The worker's routers, its open transports with their routers, and all transports there ever were. */
  datatype Worker = Worker(routers: set<string>, open: map<nat, string>, created: set<nat>) {

    /** Ids are new when created, and everything a command names is open; closing the empty id is a no-op. */
    ghost predicate Allows(c: Command) {
      match c
      case CreateRouter(r) => r !in routers
      case CloseRouter(r) => r in routers
      case CreateTransport(r, t) => r in routers && t != 0 && t !in created
      case CloseTransport(r, t) => t == 0 || (t in open && open[t] == r)
      case Produce(t, _) => t in open
      case CloseProducer(t, _) => t in open
      case CloseConsumer(t, _) => t in open
    }

    /** A router that closes takes its transports with it. */
    ghost function Apply(c: Command): Worker {
      match c
      case CreateRouter(r) => this.(routers := routers + {r})
      case CloseRouter(r) => this.(routers := routers - {r}, open := map t <- open | open[t] != r :: open[t])
      case CreateTransport(r, t) => this.(open := open[t := r], created := created + {t})
      case CloseTransport(_, t) => this.(open := open - {t})
      case _ => this
    }
  }

  ghost function After(trace: seq<Command>): Worker {
    if trace == [] then Worker({}, map[], {})
    else After(trace[..|trace| - 1]).Apply(trace[|trace| - 1])
  }

  ghost predicate Clean(trace: seq<Command>) {
    trace == [] || (Clean(trace[..|trace| - 1]) && After(trace[..|trace| - 1]).Allows(trace[|trace| - 1]))
  }

  lemma Snoc(trace: seq<Command>, c: Command)
    ensures After(trace + [c]) == After(trace).Apply(c)
    ensures Clean(trace + [c]) <==> Clean(trace) && After(trace).Allows(c)
  {
    assert (trace + [c])[..|trace + [c]| - 1] == trace;
  }

  /** Cleanliness is about every command of a run, in the state it meets. */
  lemma {:induction false} EveryCommandAllowed(trace: seq<Command>)
    ensures Clean(trace) <==> forall i :: 0 <= i < |trace| ==> AllowedAt(trace, i)
  {
    hide After, Worker.Allows;
    if trace != [] {
      var n := |trace| - 1;
      EveryCommandAllowed(trace[..n]);
      assert Clean(trace) <==> Clean(trace[..n]) && AllowedAt(trace, n);
      forall i | 0 <= i < n ensures AllowedAt(trace[..n], i) <==> AllowedAt(trace, i) {
        assert trace[..n][..i] == trace[..i];
      }
    }
  }

  ghost predicate AllowedAt(trace: seq<Command>, i: nat)
    requires i < |trace|
  {
    After(trace[..i]).Allows(trace[i])
  }

  lemma {:induction false} OpenIsKnown(trace: seq<Command>)
    requires Clean(trace)
    ensures var w := After(trace);
            w.open.Keys <= w.created && 0 !in w.created && forall t <- w.open :: w.open[t] in w.routers
  {
    if trace != [] {
      OpenIsKnown(trace[..|trace| - 1]);
    }
  }

  /** How often a transport is closed by name. */
  ghost function Closes(trace: seq<Command>, t: nat): nat {
    if trace == [] then 0
    else
      var last := trace[|trace| - 1];
      Closes(trace[..|trace| - 1], t) + if last.CloseTransport? && last.transport == t then 1 else 0
  }

  /** In a clean trace a transport is closed at most once, and only after it was created. */
  lemma {:induction false} ClosedAtMostOnce(trace: seq<Command>, t: nat)
    requires Clean(trace) && t != 0
    ensures Closes(trace, t) <= if t in After(trace).created && t !in After(trace).open then 1 else 0
  {
    if trace != [] {
      ClosedAtMostOnce(trace[..|trace| - 1], t);
      OpenIsKnown(trace[..|trace| - 1]);
    }
  }

  ghost predicate Ends(c: Command, t: nat, room: string) {
    (c.CloseTransport? && c.transport == t) || c == CloseRouter(room)
  }

  /** The transport was created by command i, and neither it nor the router of its room was closed since. */
  ghost predicate OpenSince(trace: seq<Command>, t: nat, room: string, i: nat) {
    i < |trace| && trace[i] == CreateTransport(room, t) && forall j :: i < j < |trace| ==> !Ends(trace[j], t, room)
  }

  ghost predicate EverOpened(trace: seq<Command>, t: nat, room: string) {
    exists i: nat :: OpenSince(trace, t, room, i)
  }

  lemma OpenLater(init: seq<Command>, c: Command, t: nat, room: string, i: nat)
    requires i < |init|
    ensures OpenSince(init + [c], t, room, i) <==> OpenSince(init, t, room, i) && !Ends(c, t, room)
  {
    var trace := init + [c];
    assert trace[|init|] == c && forall j :: 0 <= j < |init| ==> trace[j] == init[j];
    if OpenSince(trace, t, room, i) {
      assert !Ends(trace[|init|], t, room);
      assert forall j :: i < j < |init| ==> !Ends(trace[j], t, room);
    }
  }

  lemma OpenedMore(init: seq<Command>, c: Command, t: nat, room: string)
    ensures EverOpened(init + [c], t, room) <==>
            c == CreateTransport(room, t) || (EverOpened(init, t, room) && !Ends(c, t, room))
  {
    var trace, n := init + [c], |init|;
    assert OpenSince(trace, t, room, n) <==> c == CreateTransport(room, t);
    if EverOpened(trace, t, room) {
      var i: nat :| OpenSince(trace, t, room, i);
      if i < n {
        OpenLater(init, c, t, room, i);
      }
    }
    if EverOpened(init, t, room) {
      var i: nat :| OpenSince(init, t, room, i);
      OpenLater(init, c, t, room, i);
    }
  }

  /** What is open: created in the room, and not closed since by name or with the router. */
  lemma {:induction false} OpenIff(trace: seq<Command>, t: nat, room: string)
    requires Clean(trace)
    ensures t in After(trace).open && After(trace).open[t] == room <==> EverOpened(trace, t, room)
  {
    hide EverOpened;
    if trace == [] {
      assert !EverOpened([], t, room) by { NothingOpened(t, room); }
    } else {
      var n := |trace| - 1;
      OpenIff(trace[..n], t, room);
      OpenIsKnown(trace[..n]);
      assert trace == trace[..n] + [trace[n]];
      OpenedMore(trace[..n], trace[n], t, room);
    }
  }

  lemma NothingOpened(t: nat, room: string)
    ensures !EverOpened([], t, room)
  {}

  /** In a clean run whatever a command names is open at that moment; only the empty id may be closed for nothing. */
  lemma NamedIsOpen(trace: seq<Command>, i: nat)
    requires Clean(trace) && i < |trace|
    ensures trace[i].Produce? || trace[i].CloseProducer? || trace[i].CloseConsumer? ==>
            exists room :: EverOpened(trace[..i], trace[i].transport, room)
    ensures trace[i].CloseTransport? && trace[i].transport != 0 ==>
            EverOpened(trace[..i], trace[i].transport, trace[i].room)
  {
    EveryCommandAllowed(trace);
    assert AllowedAt(trace, i);
    CleanPrefix(trace, i);
    hide Clean, After, EverOpened;
    var w := After(trace[..i]);
    if trace[i].Produce? || trace[i].CloseProducer? || trace[i].CloseConsumer? {
      OpenIff(trace[..i], trace[i].transport, w.open[trace[i].transport]);
    } else if trace[i].CloseTransport? && trace[i].transport != 0 {
      OpenIff(trace[..i], trace[i].transport, trace[i].room);
    }
  }

  lemma {:induction false} CleanPrefix(trace: seq<Command>, i: nat)
    requires Clean(trace) && i <= |trace|
    ensures Clean(trace[..i])
  {
    if i < |trace| {
      CleanPrefix(trace[..|trace| - 1], i);
      assert trace[..|trace| - 1][..i] == trace[..i];
    } else {
      assert trace[..i] == trace;
    }
  }
}
