/** The channel to the worker process: reassembly of frames and correlation of responses. */
module Channel {
  import opened Wrappers
  import opened Framing
  import opened Requests

  /** What JSON.parse makes of a payload; a reply has a truthy id. */
  datatype Message =
    | Invalid
    | Reply(id: nat, verdict: Verdict)
    | Notice(target: string, event: string, data: string)
    | Other

  /** The request-table events in a payload: only a '{' payload that is a reply has one. */
  function EventsOf(parse: seq<Byte> -> Message, payload: seq<Byte>): seq<Event> {
    if payload != [] && payload[0] == 123 && parse(payload).Reply? && parse(payload).id != 0
    then [Response(parse(payload).id, parse(payload).verdict)]
    else []
  }

  function EventsOfAll(parse: seq<Byte> -> Message, payloads: seq<seq<Byte>>): seq<Event> {
    if payloads == [] then [] else EventsOf(parse, payloads[0]) + EventsOfAll(parse, payloads[1..])
  }

  lemma {:induction false} EventsOfAppend(parse: seq<Byte> -> Message, a: seq<seq<Byte>>, b: seq<seq<Byte>>)
    ensures EventsOfAll(parse, a + b) == EventsOfAll(parse, a) + EventsOfAll(parse, b)
  {
    if a == [] {
      assert a + b == b;
    } else {
      assert (a + b)[1..] == a[1..] + b;
      EventsOfAppend(parse, a[1..], b);
    }
  }

  lemma EventsOfSnoc(parse: seq<Byte> -> Message, a: seq<seq<Byte>>, payload: seq<Byte>)
    ensures EventsOfAll(parse, a + [payload]) == EventsOfAll(parse, a) + EventsOf(parse, payload)
  {
    EventsOfAppend(parse, a, [payload]);
    assert [payload][1..] == [];
  }

  lemma NoEvents(t: Table, parse: seq<Byte> -> Message)
    ensures Run(t, EventsOfAll(parse, [])) == t
  {}

  lemma SettleNone(promises: map<nat, Option<Outcome>>)
    ensures SettleAll(promises, {}) == promises
  {}

  lemma SettleOneMore(promises: map<nat, Option<Outcome>>, done: set<nat>, c: nat)
    ensures Settle(SettleAll(promises, done), c, Outcome.Closed) == SettleAll(promises, done + {c})
  {}

  // ----- What frames do to requests -----

  /** The frame is the worker's answer to the request with the id: a '{' payload, accepted or rejected. */
  ghost predicate IsAnswer(parse: seq<Byte> -> Message, payload: seq<Byte>, id: nat, verdict: Verdict) {
    payload != [] && payload[0] == 123 && parse(payload) == Reply(id, verdict) && verdict != Neither
  }

  /** The verdict of the first answer to the id among the frames; Neither if there is none. */
  ghost function FirstVerdict(parse: seq<Byte> -> Message, payloads: seq<seq<Byte>>, id: nat): Verdict {
    if payloads == [] then Neither
    else if IsAnswer(parse, payloads[0], id, Accepted) then Accepted
    else if IsAnswer(parse, payloads[0], id, Rejected) then Rejected
    else FirstVerdict(parse, payloads[1..], id)
  }

  /** How a promise stands after a verdict on its request; a settled one stays as it is. */
  ghost function Judged(o: Option<Outcome>, verdict: Verdict): Option<Outcome> {
    if o.Some? || verdict == Neither then o else if verdict == Accepted then Some(Resolved) else Some(Failed)
  }

  /** Every pending request is settled by the first answer to its id, and by nothing else. */
  ghost predicate Answered(parse: seq<Byte> -> Message, payloads: seq<seq<Byte>>,
                           before: map<nat, Option<Outcome>>, after: map<nat, Option<Outcome>>) {
    && after.Keys == before.Keys
    && forall c <- before :: after[c] == Judged(before[c], FirstVerdict(parse, payloads, IdOf(c)))
  }

  lemma FrameTracked(parse: seq<Byte> -> Message, t: Table, payload: seq<Byte>)
    requires Valid(t) && Tracked(t)
    ensures Valid(Run(t, EventsOf(parse, payload))) && Tracked(Run(t, EventsOf(parse, payload)))
  {
    hide Valid, Tracked;
    var events := EventsOf(parse, payload);
    if events != [] {
      assert events[1..] == [] && Run(t, events) == Step(t, events[0]);
      StepValid(t, events[0]);
      StepTracks(t, events[0]);
    }
  }

  lemma FrameAnswered(parse: seq<Byte> -> Message, t: Table, payload: seq<Byte>)
    requires Valid(t) && Tracked(t)
    ensures Answered(parse, [payload], t.promises, Run(t, EventsOf(parse, payload)).promises)
  {
    var events := EventsOf(parse, payload);
    assert events == [] ==> Run(t, events) == t;
    assert events != [] ==> events[1..] == [] && Run(t, events) == Step(t, events[0]);
    hide IdOf, Run, FirstVerdict;
    forall c <- t.promises
      ensures Run(t, events).promises[c] == Judged(t.promises[c], FirstVerdict(parse, [payload], IdOf(c)))
    {
      OneVerdict(parse, payload, IdOf(c));
      IdPositive(c);
    }
  }

  lemma OneVerdict(parse: seq<Byte> -> Message, payload: seq<Byte>, id: nat)
    ensures FirstVerdict(parse, [payload], id) ==
            if IsAnswer(parse, payload, id, Accepted) then Accepted
            else if IsAnswer(parse, payload, id, Rejected) then Rejected else Neither
  {
    hide IsAnswer;
    assert [payload][1..] == [];
  }

  lemma IdPositive(call: nat)
    requires call > 0
    ensures IdOf(call) > 0
  {}

  /** A list of frames. */
  lemma {:induction false} FramesAnswered(parse: seq<Byte> -> Message, t: Table, payloads: seq<seq<Byte>>)
    requires Valid(t) && Tracked(t)
    ensures Answered(parse, payloads, t.promises, Run(t, EventsOfAll(parse, payloads)).promises)
    decreases |payloads|
  {
    hide Valid, Tracked, EventsOf, IsAnswer, IdOf, Run;
    if payloads == [] {
      NoEvents(t, parse);
    } else {
      var first, rest := payloads[0], payloads[1..];
      var t' := Run(t, EventsOf(parse, first));
      FrameTracked(parse, t, first);
      FrameAnswered(parse, t, first);
      FramesAnswered(parse, t', rest);
      RunAppend(t, EventsOf(parse, first), EventsOfAll(parse, rest));
      forall c <- t.promises {
        OneVerdict(parse, first, IdOf(c));
      }
    }
  }

  lemma FrameSettles(parse: seq<Byte> -> Message, t: Table, payload: seq<Byte>, call: nat, verdict: Verdict)
    requires Valid(t) && Tracked(t) && call in t.promises && t.promises[call].None?
    requires IsAnswer(parse, payload, IdOf(call), verdict)
    ensures Run(t, EventsOfAll(parse, [payload])).promises ==
            t.promises[call := Some(if verdict == Accepted then Resolved else Failed)]
  {
    FramesAnswered(parse, t, [payload]);
    hide IdOf, Run, EventsOfAll, FirstVerdict, Valid;
    forall c <- t.promises {
      OneVerdict(parse, payload, IdOf(c));
    }
    assert t.sents[IdOf(call)] == call;
  }

  lemma FrameIgnored(parse: seq<Byte> -> Message, t: Table, payload: seq<Byte>)
    requires Valid(t) && Tracked(t)
    requires forall c <- t.promises, v :: t.promises[c].None? ==> !IsAnswer(parse, payload, IdOf(c), v)
    ensures Run(t, EventsOfAll(parse, [payload])).promises == t.promises
  {
    FramesAnswered(parse, t, [payload]);
    hide IdOf, Run, EventsOfAll, FirstVerdict, Valid, Tracked, IsAnswer;
    forall c <- t.promises {
      OneVerdict(parse, payload, IdOf(c));
    }
  }

  /**
   After any run in which no id was taken over, an answer in a frame settles the request that was sent with its id,
   and a frame that answers no pending request changes no promise.
   */
  lemma AnswerSettles(parse: seq<Byte> -> Message, events: seq<Event>, payload: seq<Byte>, call: nat, verdict: Verdict)
    requires NeverTaken(EMPTY, events)
    ensures var t := Run(EMPTY, events);
            var t' := Run(t, EventsOfAll(parse, [payload]));
            && (call in t.promises && t.promises[call].None? && IsAnswer(parse, payload, IdOf(call), verdict) ==>
                  t'.promises == t.promises[call := Some(if verdict == Accepted then Resolved else Failed)])
            && ((forall c <- t.promises, v :: t.promises[c].None? ==> !IsAnswer(parse, payload, IdOf(c), v)) ==>
                  t'.promises == t.promises)
  {
    var t := Run(EMPTY, events);
    RunValid(EMPTY, events);
    RunTracks(EMPTY, events);
    hide IdOf, Run, NeverTaken, EventsOfAll, Valid, Tracked, IsAnswer;
    if call in t.promises && t.promises[call].None? && IsAnswer(parse, payload, IdOf(call), verdict) {
      FrameSettles(parse, t, payload, call, verdict);
    }
    if forall c <- t.promises, v :: t.promises[c].None? ==> !IsAnswer(parse, payload, IdOf(c), v) {
      FrameIgnored(parse, t, payload);
    }
  }

  class Channel {
    const le: bool
    const parse: seq<Byte> -> Message
    var closed: bool
    var nextId: nat
    var sents: map<nat, nat>       // id to the number of the request
    var recvBuffer: seq<Byte>
    var calls: nat                 // requests made so far, that is promises handed out
    var promises: map<nat, Option<Outcome>>
    var delivered: seq<seq<Byte>>  // payloads handed to the dispatcher, in order

    constructor (le: bool, parse: seq<Byte> -> Message)
      ensures this.le == le && this.parse == parse
      ensures State() == EMPTY && recvBuffer == [] && delivered == []
    {
      this.le, this.parse := le, parse;
      closed, nextId, sents, calls, promises := false, 0, map[], 0, map[];
      recvBuffer, delivered := [], [];
    }

    function State(): Table
      reads this
    {
      Table(calls, nextId, sents, closed, promises)
    }

    /** request(): the id moves on even if the channel is closed or the request cannot be sent. */
    method SendRequest(sendable: bool) returns (call: nat)
      modifies this
      ensures State() == Step(old(State()), Request(sendable)) && call == calls
      ensures recvBuffer == old(recvBuffer) && delivered == old(delivered)
    {
      nextId := if nextId < 4294967295 then nextId + 1 else 1;
      calls := calls + 1;
      call := calls;
      if closed || !sendable {
        promises := promises[call := Some(Threw)];
        return;
      }
      promises := promises[call := None];
      sents := sents[nextId := call];
    }

    method Shut()
      modifies this
      ensures State() == Step(old(State()), Close)
      ensures recvBuffer == old(recvBuffer) && delivered == old(delivered)
    {
      if closed {
        return;
      }
      closed := true;
      hide Settle, SettleAll;
      var pending := sents.Values;
      ghost var todo := pending;
      ghost var before := promises;
      SettleNone(before);
      assert todo - pending == {};
      while pending != {}
        invariant pending <= todo
        invariant closed && calls == old(calls) && nextId == old(nextId) && sents == old(sents)
        invariant recvBuffer == old(recvBuffer) && delivered == old(delivered)
        invariant promises == SettleAll(before, todo - pending)
        decreases |pending|
      {
        var c :| c in pending;
        SettleOneMore(before, todo - pending, c);
        assert todo - (pending - {c}) == (todo - pending) + {c};
        pending := pending - {c};
        promises := Settle(promises, c, Outcome.Closed);
      }
      assert todo - {} == todo;
    }

    /** processMessage() for a reply. */
    method ProcessReply(id: nat, verdict: Verdict)
      modifies this
      ensures State() == Step(old(State()), Response(id, verdict))
      ensures recvBuffer == old(recvBuffer) && delivered == old(delivered)
    {
      if id !in sents || verdict == Neither {
        return;
      }
      var call := sents[id];
      sents := sents - {id};
      promises := Settle(promises, call, if verdict == Accepted then Resolved else Failed);
    }

    /** The switch on the first byte of a payload. */
    method Dispatch(payload: seq<Byte>)
      modifies this
      ensures State() == Run(old(State()), EventsOf(parse, payload))
      ensures recvBuffer == old(recvBuffer) && delivered == old(delivered) + [payload]
    {
      delivered := delivered + [payload];
      if payload != [] && payload[0] == 123 {
        var msg := parse(payload);
        if msg.Reply? && msg.id != 0 {
          ProcessReply(msg.id, msg.verdict);
        }
      }
    }

    /** The data handler: the loop advances msgStart over the complete frames of the buffer. */
    method OnData(buffer: seq<Byte>)
      modifies this
      ensures var parts := Receive(old(recvBuffer), buffer, le);
              && recvBuffer == parts.rest
              && delivered == old(delivered) + parts.frames
              && State() == Run(old(State()), EventsOfAll(parse, parts.frames))
    {
      hide ReadU32, Run, EventsOf, EventsOfAll, SplitUpTo;
      recvBuffer := if recvBuffer == [] then buffer else recvBuffer + buffer;
      assert recvBuffer == old(recvBuffer) + buffer;
      if |recvBuffer| > PAYLOAD_MAX_LEN {
        recvBuffer := [];
        NoEvents(State(), parse);
        return;
      }
      var msgStart := 0;
      ghost var whole := recvBuffer;
      ghost var frames: seq<seq<Byte>> := [];
      SplitStarts(whole, le);
      NoEvents(State(), parse);
      while true
        invariant 0 <= msgStart <= |recvBuffer| && recvBuffer == whole
        invariant SplitUpTo(whole, msgStart, frames, le)
        invariant delivered == old(delivered) + frames
        invariant State() == Run(old(State()), EventsOfAll(parse, frames))
        decreases |recvBuffer| - msgStart
      {
        var readLen := |recvBuffer| - msgStart;
        if readLen < 4 {
          break;
        }
        var msgLen := ReadU32(recvBuffer[msgStart..], le);
        if readLen < 4 + msgLen {
          break;
        }
        var payload := recvBuffer[msgStart + 4..msgStart + 4 + msgLen];
        SplitStep(whole, msgStart, frames, le);
        msgStart := msgStart + 4 + msgLen;
        EventsOfSnoc(parse, frames, payload);
        RunAppend(old(State()), EventsOfAll(parse, frames), EventsOf(parse, payload));
        Dispatch(payload);
        frames := frames + [payload];
      }
      SplitDone(whole, msgStart, frames, le);
      if msgStart != 0 {
        recvBuffer := recvBuffer[msgStart..];
      }
    }

    /** Any sequence of data events. */
    method OnDataEvents(chunks: seq<seq<Byte>>)
      modifies this
      ensures var parts := ReceiveAll(old(recvBuffer), chunks, le);
              && recvBuffer == parts.rest
              && delivered == old(delivered) + parts.frames
              && State() == Run(old(State()), EventsOfAll(parse, parts.frames))
              && (Requests.Valid(old(State())) && Tracked(old(State())) ==>
                    Answered(parse, parts.frames, old(promises), promises))
    {
      hide Run, EventsOfAll, Receive, Step, Answered, Requests.Valid, Tracked;
      if Requests.Valid(State()) && Tracked(State()) {
        FramesAnswered(parse, State(), ReceiveAll(recvBuffer, chunks, le).frames);
      }
      if chunks == [] {
        NoEvents(State(), parse);
      } else {
        ghost var now := Receive(recvBuffer, chunks[0], le);
        ghost var later := ReceiveAll(now.rest, chunks[1..], le);
        OnData(chunks[0]);
        OnDataEvents(chunks[1..]);
        EventsOfAppend(parse, now.frames, later.frames);
        RunAppend(old(State()), EventsOfAll(parse, now.frames), EventsOfAll(parse, later.frames));
      }
    }
  }
}
