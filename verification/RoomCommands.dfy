/** The commands of one step of the signalling server, where their order is that of a map. */
module RoomCommands {
  import opened RoomMedia
  import opened WorkerTrace
  import opened Mesh

  /** Consumers by remote user, then by consumer id. */
  type Consumers = map<string, map<nat, Consumer>>

  datatype Downstream = Downstream(transport: nat, consumers: Consumers)

  ghost function DownstreamOf(u: User): Downstream
    reads u`consumerTransport, u`consumers
  {
    Downstream(u.consumerTransport, u.consumers)
  }

  /** The trace is extended by exactly these commands, each as often as it is there, in some order. */
  ghost predicate Sent(before: seq<Command>, after: seq<Command>, commands: multiset<Command>) {
    before <= after && multiset(after[|before|..]) == commands
  }

  lemma SentNothing(trace: seq<Command>)
    ensures Sent(trace, trace, multiset{})
  {}

  lemma SentOne(trace: seq<Command>, c: Command)
    ensures Sent(trace, trace + [c], multiset{c})
  {
    assert (trace + [c])[|trace|..] == [c];
  }

  lemma SentBoth(before: seq<Command>, between: seq<Command>, after: seq<Command>, a: multiset<Command>,
                 b: multiset<Command>)
    requires Sent(before, between, a) && Sent(between, after, b)
    ensures Sent(before, after, a + b)
  {
    assert after[|before|..] == between[|before|..] + after[|between|..];
  }

  /** One closeConsumer command for each id. */
  ghost function Closing(t: nat, ids: set<nat>): multiset<Command> {
    multiset(set id <- ids :: CloseConsumer(t, id))
  }

  lemma ClosingOneMore(t: nat, ids: set<nat>, id: nat)
    requires id !in ids
    ensures Closing(t, ids + {id}) == Closing(t, ids) + multiset{CloseConsumer(t, id)}
  {}

  ghost function ClosingProducers(t: nat, ids: set<nat>): multiset<Command> {
    multiset(set id <- ids :: CloseProducer(t, id))
  }

  lemma ClosingOneMoreProducer(t: nat, ids: set<nat>, id: nat)
    requires id !in ids
    ensures ClosingProducers(t, ids + {id}) == ClosingProducers(t, ids) + multiset{CloseProducer(t, id)}
  {}

  /** How many of the remote users have a consumer with the id. */
  ghost function Times(consumers: Consumers, ks: set<string>, id: nat): nat
    requires ks <= consumers.Keys
  {
    |set k <- ks | id in consumers[k]|
  }

  /** The trace is extended by one closeConsumer command per consumer of these remote users, in some order. */
  ghost predicate ClosedAll(before: seq<Command>, after: seq<Command>, t: nat, consumers: Consumers, ks: set<string>)
    requires ks <= consumers.Keys
  {
    && before <= after
    && (forall c <- after[|before|..] :: c.CloseConsumer? && c.transport == t)
    && forall id :: multiset(after[|before|..])[CloseConsumer(t, id)] == Times(consumers, ks, id)
  }

  lemma ClosedNone(trace: seq<Command>, t: nat, consumers: Consumers)
    ensures ClosedAll(trace, trace, t, consumers, {})
  {
    assert trace[|trace|..] == [];
    forall id: nat {
      NobodyHas(consumers, {}, id);
    }
  }

  lemma NobodyHas(consumers: Consumers, ks: set<string>, id: nat)
    requires ks <= consumers.Keys
    ensures Times(consumers, ks, id) == 0 <==> forall k <- ks :: id !in consumers[k]
  {
    var those := set k <- ks | id in consumers[k];
    assert forall k <- ks :: id in consumers[k] ==> k in those;
    if those != {} {
      var k :| k in those;
      assert |those - {k}| == |those| - 1;
    }
  }

  lemma TimesMore(consumers: Consumers, ks: set<string>, k: string, id: nat)
    requires ks <= consumers.Keys && k in consumers && k !in ks
    ensures Times(consumers, ks + {k}, id) == Times(consumers, ks, id) + if id in consumers[k] then 1 else 0
  {
    var old', now := set j <- ks | id in consumers[j], set j <- ks + {k} | id in consumers[j];
    assert now == if id in consumers[k] then old' + {k} else old';
  }

  lemma ClosedMore(before: seq<Command>, between: seq<Command>, after: seq<Command>, t: nat, consumers: Consumers,
                   ks: set<string>, k: string)
    requires ks <= consumers.Keys && k in consumers && k !in ks
    requires ClosedAll(before, between, t, consumers, ks) && Sent(between, after, Closing(t, consumers[k].Keys))
    ensures ClosedAll(before, after, t, consumers, ks + {k})
  {
    hide Times;
    var a, b := between[|before|..], after[|between|..];
    assert after[|before|..] == a + b;
    forall id ensures multiset(a + b)[CloseConsumer(t, id)] == Times(consumers, ks + {k}, id) {
      TimesMore(consumers, ks, k, id);
    }
    forall c <- b ensures c.CloseConsumer? && c.transport == t {
      assert c in multiset(b);
    }
  }

  /** Closes all consumers, then their transport if there is one, and creates another. */
  ghost predicate Replacement(before: seq<Command>, after: seq<Command>, room: string, t: nat, t': nat,
                              consumers: Consumers) {
    exists between :: IsReplacement(before, between, after, room, t, t', consumers)
  }

  ghost predicate IsReplacement(before: seq<Command>, between: seq<Command>, after: seq<Command>, room: string,
                                t: nat, t': nat, consumers: Consumers) {
    && ClosedAll(before, between, t, consumers, consumers.Keys)
    && after == between + (if t != 0 then [CloseTransport(room, t)] else []) + [CreateTransport(room, t')]
  }

  /** The replacement took place somewhere in the run. */
  ghost predicate Replaced(start: seq<Command>, trace: seq<Command>, room: string, t: nat, t': nat,
                           consumers: Consumers) {
    exists before, after :: start <= before && after <= trace && Replacement(before, after, room, t, t', consumers)
  }

  lemma StillReplaced(start: seq<Command>, trace: seq<Command>, more: seq<Command>, room: string, t: nat, t': nat,
                      consumers: Consumers)
    requires Replaced(start, trace, room, t, t', consumers) && trace <= more
    ensures Replaced(start, more, room, t, t', consumers)
  {}

  lemma NowReplaced(start: seq<Command>, before: seq<Command>, trace: seq<Command>, room: string, t: nat, t': nat,
                    consumers: Consumers)
    requires Replacement(before, trace, room, t, t', consumers) && start <= before
    ensures Replaced(start, trace, room, t, t', consumers) && before <= trace
  {}

  /** Closes a user's producers and their transport, then its consumers and theirs, which may be the empty id. */
  ghost predicate Farewell(before: seq<Command>, after: seq<Command>, room: string, t: nat, producers: set<nat>,
                           down: Downstream) {
    exists middle, late :: IsFarewell(before, middle, late, after, room, t, producers, down)
  }

  ghost predicate IsFarewell(before: seq<Command>, middle: seq<Command>, late: seq<Command>, after: seq<Command>,
                             room: string, t: nat, producers: set<nat>, down: Downstream) {
    && Sent(before, middle, ClosingProducers(t, producers))
    && ClosedAll(middle + [CloseTransport(room, t)], late, down.transport, down.consumers, down.consumers.Keys)
    && after == late + [CloseTransport(room, down.transport)]
  }

  /** These users have been seen off somewhere in the run. */
  ghost predicate SeenOff(start: seq<Command>, trace: seq<Command>, us: set<User>)
    reads us`producerTransport, us`consumerTransport, us`consumers
  {
    start <= trace && forall u <- us :: SeenOffUser(start, trace, u, u.producerTransport, DownstreamOf(u))
  }

  ghost predicate SeenOffUser(start: seq<Command>, trace: seq<Command>, u: User, t: nat, down: Downstream) {
    exists before, after ::
      start <= before && after <= trace && Farewell(before, after, u.roomId, t, u.producers.Keys, down)
  }

  lemma NobodySeenOff(trace: seq<Command>)
    ensures SeenOff(trace, trace, {})
  {}

  lemma FarewellExtends(before: seq<Command>, after: seq<Command>, room: string, t: nat, producers: set<nat>,
                        down: Downstream)
    requires Farewell(before, after, room, t, producers, down)
    ensures before <= after
  {
    var middle, late :| IsFarewell(before, middle, late, after, room, t, producers, down);
    assert before <= middle <= middle + [CloseTransport(room, t)] <= late <= after;
  }

  lemma OneMoreSeenOff(start: seq<Command>, before: seq<Command>, trace: seq<Command>, us: set<User>, u: User)
    requires SeenOff(start, before, us)
    requires Farewell(before, trace, u.roomId, u.producerTransport, u.producers.Keys, DownstreamOf(u))
    ensures SeenOff(start, trace, us + {u})
  {
    hide Farewell;
    FarewellExtends(before, trace, u.roomId, u.producerTransport, u.producers.Keys, DownstreamOf(u));
  }

  /** In a longer run they still have been. */
  lemma StillSeenOff(first: seq<Command>, start: seq<Command>, trace: seq<Command>, more: seq<Command>, us: set<User>)
    requires SeenOff(start, trace, us) && first <= start && trace <= more
    ensures SeenOff(first, more, us)
  {
    hide Farewell;
  }

  lemma BothSeenOff(start: seq<Command>, trace: seq<Command>, us: set<User>, vs: set<User>)
    requires SeenOff(start, trace, us) && SeenOff(start, trace, vs)
    ensures SeenOff(start, trace, us + vs)
  {
    hide SeenOffUser;
  }

  /** What is to be closed for a user: its producer transport, and its downstream. */
  ghost function Partings(us: set<User>): map<User, (nat, Downstream)>
    reads us`producerTransport, us`consumerTransport, us`consumers
  {
    map u <- us :: (u.producerTransport, DownstreamOf(u))
  }

  ghost predicate SeenOffAs(start: seq<Command>, trace: seq<Command>, partings: map<User, (nat, Downstream)>) {
    forall u <- partings :: SeenOffUser(start, trace, u, partings[u].0, partings[u].1)
  }

  lemma SeenOffEach(start: seq<Command>, trace: seq<Command>, us: set<User>)
    requires SeenOff(start, trace, us)
    ensures SeenOffAs(start, trace, Partings(us))
  {
    hide SeenOffUser;
  }

  lemma StillSeenOffAs(start: seq<Command>, trace: seq<Command>, more: seq<Command>,
                       partings: map<User, (nat, Downstream)>)
    requires SeenOffAs(start, trace, partings) && trace <= more
    ensures SeenOffAs(start, more, partings)
  {
    hide Farewell;
  }

  // ----- What the commands are, one by one -----

  /** The command closes one of the consumers. */
  ghost predicate ClosesOne(c: Command, t: nat, consumers: Consumers) {
    c.CloseConsumer? && c.transport == t && exists k <- consumers :: c.consumer in consumers[k]
  }

  lemma ClosedEach(before: seq<Command>, after: seq<Command>, t: nat, consumers: Consumers)
    requires ClosedAll(before, after, t, consumers, consumers.Keys)
    ensures forall k <- consumers, id <- consumers[k] :: CloseConsumer(t, id) in after[|before|..]
    ensures forall i :: |before| <= i < |after| ==> ClosesOne(after[i], t, consumers)
  {
    hide Times;
    var mine := after[|before|..];
    forall k <- consumers, id <- consumers[k] ensures CloseConsumer(t, id) in mine {
      NobodyHas(consumers, consumers.Keys, id);
      assert CloseConsumer(t, id) in multiset(mine);
    }
    forall i | |before| <= i < |after| ensures ClosesOne(after[i], t, consumers) {
      assert after[i] == mine[i - |before|] && mine[i - |before|] in mine;
      assert after[i] in multiset(mine);
      NobodyHas(consumers, consumers.Keys, after[i].consumer);
    }
  }

  /** What is closed when a transport is replaced: every consumer, then the transport if there is one. */
  lemma ReplacementMeans(before: seq<Command>, after: seq<Command>, room: string, t: nat, t': nat, consumers: Consumers)
    requires Replacement(before, after, room, t, t', consumers)
    ensures |before| < |after| && before <= after && after[|after| - 1] == CreateTransport(room, t')
    ensures t != 0 ==> |before| < |after| - 1 && after[|after| - 2] == CloseTransport(room, t)
    ensures forall k <- consumers, id <- consumers[k] :: CloseConsumer(t, id) in after[|before|..]
    ensures forall i :: |before| <= i < |after| - (if t != 0 then 2 else 1) ==> ClosesOne(after[i], t, consumers)
  {
    var between :| IsReplacement(before, between, after, room, t, t', consumers);
    ClosedEach(before, between, t, consumers);
    hide ClosesOne;
    var rest := after[|between|..];
    assert after[|before|..] == between[|before|..] + rest;
  }

  /** What is closed for a user who leaves: all producers and consumers, and both transports. */
  lemma FarewellMeans(before: seq<Command>, after: seq<Command>, room: string, t: nat, producers: set<nat>,
                      down: Downstream)
    requires Farewell(before, after, room, t, producers, down)
    ensures before <= after && |before| < |after| && after[|after| - 1] == CloseTransport(room, down.transport)
    ensures CloseTransport(room, t) in after[|before|..]
    ensures forall p <- producers :: CloseProducer(t, p) in after[|before|..]
    ensures forall k <- down.consumers, id <- down.consumers[k] ::
              CloseConsumer(down.transport, id) in after[|before|..]
  {
    var middle, late :| IsFarewell(before, middle, late, after, room, t, producers, down);
    var start := middle + [CloseTransport(room, t)];
    var first, second := middle[|before|..], late[|start|..];
    assert after[|before|..] == first + [CloseTransport(room, t)] + second + [CloseTransport(room, down.transport)];
    forall p <- producers ensures CloseProducer(t, p) in first {
      assert CloseProducer(t, p) in multiset(first);
    }
    ClosedEach(start, late, down.transport, down.consumers);
  }
}
