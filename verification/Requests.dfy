/** The table of pending requests of a channel: ids that wrap, promises, responses and close. */
module Requests {
  import opened Wrappers

  const MAX_ID := 4294967295

  /** How a promise ended; Threw is a request that failed before it was sent. */
  datatype Outcome = Resolved | Failed | Closed | Threw

  datatype Verdict = Accepted | Rejected | Neither

  /** CloseQuietly is the close of the payload channel, which leaves the pending requests alone. */
  datatype Event = Request(sendable: bool) | Response(id: nat, verdict: Verdict) | Close | CloseQuietly

  /** Requests are numbered from 1 by the calls to request(); the promise of an unfinished one is None. */
  datatype Table = Table(calls: nat, nextId: nat, sents: map<nat, nat>, closed: bool,
                         promises: map<nat, Option<Outcome>>)

  const EMPTY := Table(0, 0, map[], false, map[])

  function NextId(id: nat): nat {
    if id < MAX_ID then id + 1 else 1
  }

  /** A promise settles once; later attempts do nothing. */
  function Settle(promises: map<nat, Option<Outcome>>, call: nat, o: Outcome): map<nat, Option<Outcome>> {
    if call in promises && promises[call].None? then promises[call := Some(o)] else promises
  }

  function Step(t: Table, e: Event): Table {
    match e
    case Request(sendable) =>
      var id, call := NextId(t.nextId), t.calls + 1;
      if t.closed || !sendable then t.(calls := call, nextId := id, promises := t.promises[call := Some(Threw)])
      else t.(calls := call, nextId := id, sents := t.sents[id := call], promises := t.promises[call := None])
    case Response(id, verdict) =>
      if id !in t.sents || verdict == Neither then t
      else
        var o := if verdict == Accepted then Resolved else Failed;
        t.(sents := t.sents - {id}, promises := Settle(t.promises, t.sents[id], o))
    case Close =>
      if t.closed then t
      else t.(closed := true, promises := SettleAll(t.promises, t.sents.Values))
    case CloseQuietly => t.(closed := true)
  }

  /** sent.close() for every entry of the table, which itself is left as it is. */
  function SettleAll(promises: map<nat, Option<Outcome>>, calls: set<nat>): (r: map<nat, Option<Outcome>>)
    ensures r.Keys == promises.Keys
    ensures forall c <- promises ::
      r[c] == if c in calls && promises[c].None? then Some(Outcome.Closed) else promises[c]
  {
    map c <- promises :: if c in calls && promises[c].None? then Some(Outcome.Closed) else promises[c]
  }

  function Run(t: Table, events: seq<Event>): Table
    decreases |events|
  {
    if events == [] then t else Run(Step(t, events[0]), events[1..])
  }

  lemma {:induction false} RunAppend(t: Table, a: seq<Event>, b: seq<Event>)
    ensures Run(t, a + b) == Run(Run(t, a), b)
    decreases |a|
  {
    if a == [] {
      assert a + b == b;
    } else {
      assert (a + b)[0] == a[0] && (a + b)[1..] == a[1..] + b;
      RunAppend(Step(t, a[0]), a[1..], b);
    }
  }

  // ----- Ids -----

  /** The id of the n-th request. */
  function IdOf(call: nat): nat {
    if call == 0 then 0 else (call - 1) % MAX_ID + 1
  }

  lemma IdStep(call: nat)
    ensures NextId(IdOf(call)) == IdOf(call + 1)
  {
    if call > 0 {
      var q, r := (call - 1) / MAX_ID, (call - 1) % MAX_ID;
      assert call == q * MAX_ID + (r + 1);
      if r + 1 < MAX_ID {
        Remainder(q, r + 1);
      } else {
        assert call == (q + 1) * MAX_ID;
        Remainder(q + 1, 0);
      }
    }
  }

  lemma Remainder(q: nat, r: nat)
    requires r < MAX_ID
    ensures (q * MAX_ID + r) % MAX_ID == r
  {}

  /** Two requests share an id exactly when their numbers differ by a multiple of 4294967295. */
  lemma SameIdIff(a: nat, b: nat)
    requires 1 <= a <= b
    ensures IdOf(a) == IdOf(b) <==> (b - a) % MAX_ID == 0
  {
    var qa, ra := (a - 1) / MAX_ID, (a - 1) % MAX_ID;
    var qb, rb := (b - 1) / MAX_ID, (b - 1) % MAX_ID;
    assert b - a == (qb - qa) * MAX_ID + (rb - ra);
    if ra == rb {
      assert b - a == (qb - qa) * MAX_ID && qb >= qa;
      Remainder(qb - qa, 0);
    } else if ra < rb {
      assert qb >= qa;
      Remainder(qb - qa, rb - ra);
    } else {
      assert qb > qa;
      assert b - a == (qb - qa - 1) * MAX_ID + (MAX_ID + rb - ra);
      Remainder(qb - qa - 1, MAX_ID + rb - ra);
    }
  }

  /** Ids lie in 1..4294967295, and any 4294967295 consecutive requests have distinct ids. */
  lemma ConsecutiveIdsDistinct(a: nat, b: nat)
    requires 1 <= a < b < a + 4294967295
    ensures 1 <= IdOf(a) <= 4294967295 && IdOf(a) != IdOf(b)
    ensures a <= 4294967295 ==> IdOf(a) == a
  {
    SameIdIff(a, b);
  }

  // ----- What every run keeps -----

  /** Holds in every reachable state, whatever the timing. */
  ghost predicate Valid(t: Table) {
    && t.nextId == IdOf(t.calls)
    && (forall c :: c in t.promises <==> 1 <= c <= t.calls)
    && (forall id <- t.sents :: t.sents[id] in t.promises && IdOf(t.sents[id]) == id)
    && (!t.closed ==> forall id <- t.sents :: t.promises[t.sents[id]].None?)
  }

  /** Every unfinished request is in the table under its own id. */
  ghost predicate Tracked(t: Table) {
    forall c <- t.promises :: t.promises[c].None? ==> IdOf(c) in t.sents && t.sents[IdOf(c)] == c
  }

  /** Fewer than 4294967295 requests have been issued since any request still in the table. */
  ghost predicate InWindow(t: Table) {
    forall id <- t.sents :: t.calls + 1 - t.sents[id] < MAX_ID
  }

  lemma StepValid(t: Table, e: Event)
    requires Valid(t)
    ensures Valid(Step(t, e))
  {
    hide IdOf;
    IdStep(t.calls);
  }

  /** A request keeps all others tracked exactly when its id is not in use, and in the window it never is. */
  lemma RequestTracks(t: Table)
    requires Valid(t) && Tracked(t) && !t.closed
    ensures Tracked(Step(t, Request(true))) <==> IdOf(t.calls + 1) !in t.sents
    ensures IdOf(t.calls + 1) in t.sents <==> exists id <- t.sents :: (t.calls + 1 - t.sents[id]) % MAX_ID == 0
    ensures InWindow(t) ==> IdOf(t.calls + 1) !in t.sents
  {
    hide IdOf;
    IdStep(t.calls);
    var call := t.calls + 1;
    forall id <- t.sents ensures IdOf(call) == id <==> (call - t.sents[id]) % MAX_ID == 0 {
      SameIdIff(t.sents[id], call);
    }
    if IdOf(call) in t.sents {
      var lost := t.sents[IdOf(call)];
      assert t.promises[lost].None?;
    }
  }

  /** The window condition at every request of a run. */
  ghost predicate WindowKept(t: Table, events: seq<Event>)
    decreases |events|
  {
    events == [] || ((events[0].Request? ==> InWindow(t)) && WindowKept(Step(t, events[0]), events[1..]))
  }

  /** What every run keeps, ids that wrap included. */
  lemma {:induction false} RunValid(t: Table, events: seq<Event>)
    requires Valid(t)
    ensures Valid(Run(t, events))
    decreases |events|
  {
    if events != [] {
      StepValid(t, events[0]);
      RunValid(Step(t, events[0]), events[1..]);
    }
  }

  /** No request that is sent finds its id in the table. */
  ghost predicate NeverTaken(t: Table, events: seq<Event>)
    decreases |events|
  {
    events == [] || (!Takes(t, events[0]) && NeverTaken(Step(t, events[0]), events[1..]))
  }

  ghost predicate Takes(t: Table, e: Event) {
    e.Request? && e.sendable && !t.closed && NextId(t.nextId) in t.sents
  }

  /** One step keeps every pending request in the table exactly if it does not take an id that is in it. */
  lemma StepTracks(t: Table, e: Event)
    requires Valid(t) && Tracked(t)
    ensures Tracked(Step(t, e)) <==> !Takes(t, e)
  {
    match e
    case Request(sendable) =>
      if !t.closed && sendable {
        IdStep(t.calls);
        RequestTracks(t);
      }
    case Response(id, verdict) =>
      hide IdOf;
    case Close =>
      hide IdOf;
    case CloseQuietly =>
  }

  /** A pending request that is not in the table never gets back into it. */
  lemma StaysLost(t: Table, e: Event)
    requires Valid(t) && !Tracked(t)
    ensures !Tracked(Step(t, e))
  {
    hide IdOf;
    var c :| c in t.promises && t.promises[c].None? && !(IdOf(c) in t.sents && t.sents[IdOf(c)] == c);
    assert c <= t.calls;
    assert Step(t, e).promises[c].None?;
  }

  lemma {:induction false} LostForGood(t: Table, events: seq<Event>)
    requires Valid(t) && !Tracked(t)
    ensures !Tracked(Run(t, events))
    decreases |events|
  {
    hide Valid, Tracked;
    if events != [] {
      StepValid(t, events[0]);
      StaysLost(t, events[0]);
      LostForGood(Step(t, events[0]), events[1..]);
    }
  }

  /** Over a whole run every pending request is in the table at the end if and only if no id was ever taken over. */
  lemma {:induction false} RunTracks(t: Table, events: seq<Event>)
    requires Valid(t) && Tracked(t)
    ensures Tracked(Run(t, events)) <==> NeverTaken(t, events)
    decreases |events|
  {
    hide Valid, Tracked, Takes;
    if events != [] {
      StepValid(t, events[0]);
      StepTracks(t, events[0]);
      if Takes(t, events[0]) {
        LostForGood(Step(t, events[0]), events[1..]);
      } else {
        RunTracks(Step(t, events[0]), events[1..]);
      }
    }
  }

  /** In the window no id is taken over. */
  lemma {:induction false} WindowTakesNone(t: Table, events: seq<Event>)
    requires Valid(t) && Tracked(t) && WindowKept(t, events)
    ensures NeverTaken(t, events)
    decreases |events|
  {
    hide Valid, Tracked;
    if events != [] {
      StepValid(t, events[0]);
      StepTracks(t, events[0]);
      InWindowTakesNone(t, events[0]);
      WindowTakesNone(Step(t, events[0]), events[1..]);
    }
  }

  lemma InWindowTakesNone(t: Table, e: Event)
    requires Valid(t) && Tracked(t) && (e.Request? ==> InWindow(t))
    ensures !Takes(t, e)
  {
    if e.Request? && e.sendable && !t.closed {
      IdStep(t.calls);
      RequestTracks(t);
    }
  }

  /** Over every run in the window no pending request is ever overwritten. */
  lemma RunTracked(t: Table, events: seq<Event>)
    requires Valid(t) && Tracked(t) && WindowKept(t, events)
    ensures Valid(Run(t, events)) && Tracked(Run(t, events))
  {
    hide Valid, Tracked;
    RunValid(t, events);
    WindowTakesNone(t, events);
    RunTracks(t, events);
  }

  /** The response to a pending request settles that request, and no other. */
  lemma ResponseSettlesItsRequest(events: seq<Event>, call: nat, verdict: Verdict)
    requires NeverTaken(EMPTY, events)
    requires call in Run(EMPTY, events).promises && Run(EMPTY, events).promises[call].None?
    requires verdict != Neither
    ensures var t := Run(EMPTY, events);
            Step(t, Response(IdOf(call), verdict)).promises ==
            t.promises[call := Some(if verdict == Accepted then Resolved else Failed)]
  {
    RunValid(EMPTY, events);
    RunTracks(EMPTY, events);
  }

  /** A settled promise never changes again, across wrap-around, late responses and close. */
  lemma {:induction false} SettledForGood(t: Table, events: seq<Event>, call: nat)
    requires Valid(t) && call in t.promises && t.promises[call].Some?
    ensures call in Run(t, events).promises && Run(t, events).promises[call] == t.promises[call]
    decreases |events|
  {
    if events != [] {
      hide IdOf;
      StepValid(t, events[0]);
      SettledForGood(Step(t, events[0]), events[1..], call);
    }
  }

  /**
   Closing the channel leaves no request unfinished if and only if no id was ever taken over; closing the payload
   channel finishes none.
   */
  lemma CloseSettlesAll(events: seq<Event>)
    requires !Run(EMPTY, events).closed
    ensures (forall c <- Step(Run(EMPTY, events), Close).promises :: Step(Run(EMPTY, events), Close).promises[c].Some?)
            <==> NeverTaken(EMPTY, events)
    ensures forall c <- Run(EMPTY, events).promises :: Step(Run(EMPTY, events), Close).promises[c] in
              {Run(EMPTY, events).promises[c], Some(Outcome.Closed)}
    ensures Step(Run(EMPTY, events), CloseQuietly).promises == Run(EMPTY, events).promises
  {
    RunValid(EMPTY, events);
    RunTracks(EMPTY, events);
    hide IdOf;
    var t := Run(EMPTY, events);
    if Tracked(t) {
      forall c <- Step(t, Close).promises ensures Step(t, Close).promises[c].Some? {
        if t.promises[c].None? {
          assert t.sents[IdOf(c)] == c;
          assert c in t.sents.Values;
        }
      }
    } else {
      var c :| c in t.promises && t.promises[c].None? && !(IdOf(c) in t.sents && t.sents[IdOf(c)] == c);
      assert Step(t, Close).promises[c].None?;
    }
  }

  // ----- A run that takes an id over -----

  ghost function Flood(n: nat): seq<Event> {
    if n == 0 then [] else Flood(n - 1) + [Request(true)]
  }

  lemma {:induction false} Flooded(n: nat)
    ensures var t := Run(EMPTY, Flood(n)); Valid(t) && t.calls == n && !t.closed && (n > 0 ==> 1 in t.sents)
  {
    if n > 0 {
      Flooded(n - 1);
      var t := Run(EMPTY, Flood(n - 1));
      RunAppend(EMPTY, Flood(n - 1), [Request(true)]);
      assert Run(t, [Request(true)]) == Step(t, Request(true));
      StepValid(t, Request(true));
      hide IdOf;
      assert IdOf(0) == 0 && NextId(0) == 1 by { FirstId(); }
    }
  }

  lemma FirstId()
    ensures IdOf(0) == 0 && NextId(0) == 1
  {}

  lemma {:induction false} NeverTakenAppend(t: Table, a: seq<Event>, e: Event)
    ensures NeverTaken(t, a + [e]) ==> !Takes(Run(t, a), e)
    decreases |a|
  {
    hide Takes, Step;
    if a == [] {
      assert [] + [e] == [e];
    } else {
      assert (a + [e])[0] == a[0] && (a + [e])[1..] == a[1..] + [e];
      NeverTakenAppend(Step(t, a[0]), a[1..], e);
    }
  }

  /** With the first request still pending, request 4294967296 takes its id over. */
  lemma IdTakenOver()
    ensures !NeverTaken(EMPTY, Flood(4294967296)) && !Tracked(Run(EMPTY, Flood(4294967296)))
  {
    Flooded(MAX_ID);
    var t := Run(EMPTY, Flood(MAX_ID));
    assert IdOf(MAX_ID) == MAX_ID;
    assert Flood(MAX_ID + 1) == Flood(MAX_ID) + [Request(true)];
    NeverTakenAppend(EMPTY, Flood(MAX_ID), Request(true));
    hide Run, Flood, IdOf;
    RunTracks(EMPTY, Flood(MAX_ID + 1));
  }

  // ----- Requests that fail at once -----

  /** A request on a closed channel, or one that cannot be sent, is rejected at once and never gets into the table. */
  lemma RejectedAtOnce(t: Table, sendable: bool)
    requires t.closed || !sendable
    ensures var t' := Step(t, Request(sendable));
            t'.sents == t.sents && t'.promises == t.promises[t.calls + 1 := Some(Threw)] && t'.closed == t.closed
  {}

  lemma {:induction false} StaysClosed(t: Table, events: seq<Event>, call: nat)
    requires Valid(t) && t.closed && call in Run(t, events).promises && call !in t.promises
    ensures Run(t, events).closed && Run(t, events).promises[call] == Some(Threw)
    decreases |events|
  {
    hide IdOf;
    if events != [] {
      var t' := Step(t, events[0]);
      StepValid(t, events[0]);
      if call in t'.promises {
        SettledForGood(t', events[1..], call);
        if events[1..] != [] {
          ClosedForGood(t', events[1..]);
        }
      } else {
        StaysClosed(t', events[1..], call);
      }
    }
  }

  lemma {:induction false} ClosedForGood(t: Table, events: seq<Event>)
    requires t.closed
    ensures Run(t, events).closed
    decreases |events|
  {
    if events != [] {
      ClosedForGood(Step(t, events[0]), events[1..]);
    }
  }

  /** Every request after a close, whichever close it is, is rejected, over every run. */
  lemma AfterCloseAllThrow(before: seq<Event>, close: Event, after: seq<Event>, call: nat)
    requires close.Close? || close.CloseQuietly?
    requires call in Run(EMPTY, before + [close] + after).promises && call > Run(EMPTY, before).calls
    ensures Run(EMPTY, before + [close] + after).promises[call] == Some(Threw)
  {
    RunAppend(EMPTY, before + [close], after);
    RunAppend(EMPTY, before, [close]);
    RunValid(EMPTY, before);
    var t := Run(EMPTY, before);
    assert Run(t, [close]) == Step(t, close);
    StepValid(t, close);
    hide IdOf, Run;
    StaysClosed(Step(t, close), after, call);
  }
}
