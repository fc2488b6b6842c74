/** The payload channel: the same reassembly, with notifications that take the next frame as their payload. */
module PayloadChannel {
  import opened Wrappers
  import opened Framing
  import opened Requests
  import opened Channel

  /** What the listeners of a notification are handed: its data, as text, and the payload. */
  datatype Emission = Emission(target: string, event: string, data: string, payload: seq<Byte>)

  /** What processData works on: the notification waiting for its payload, emissions and replies so far. */
  datatype Pairing = Pairing(ongoing: Option<Message>, emitted: seq<Emission>, replies: seq<Event>)

  predicate Idle(p: Pairing) {
    p.ongoing.None?
  }

  ghost predicate WellFormed(p: Pairing) {
    p.ongoing.Some? ==> p.ongoing.value.Notice?
  }

  function Process(parse: seq<Byte> -> Message, p: Pairing, frame: seq<Byte>): Pairing
    requires WellFormed(p)
  {
    match p.ongoing
    case Some(notice) =>
      p.(ongoing := None, emitted := p.emitted + [Emission(notice.target, notice.event, notice.data, frame)])
    case None =>
      match parse(frame)
      case Reply(id, verdict) => if id == 0 then p else p.(replies := p.replies + [Response(id, verdict)])
      case Notice(_, _, _) => p.(ongoing := Some(parse(frame)))
      case _ => p
  }

  function ProcessAll(parse: seq<Byte> -> Message, p: Pairing, frames: seq<seq<Byte>>): (r: Pairing)
    requires WellFormed(p)
    ensures WellFormed(r)
    decreases |frames|
  {
    if frames == [] then p else ProcessAll(parse, Process(parse, p, frames[0]), frames[1..])
  }

  lemma {:induction false} ProcessAppend(parse: seq<Byte> -> Message, p: Pairing, a: seq<seq<Byte>>, b: seq<seq<Byte>>)
    requires WellFormed(p)
    ensures ProcessAll(parse, p, a + b) == ProcessAll(parse, ProcessAll(parse, p, a), b)
    decreases |a|
  {
    if a == [] {
      assert a + b == b;
    } else {
      assert (a + b)[0] == a[0] && (a + b)[1..] == a[1..] + b;
      ProcessAppend(parse, Process(parse, p, a[0]), a[1..], b);
    }
  }

  // ----- What the worker sends -----

  /** The worker sends a frame that is no notification, or a notification frame followed by any payload frame. */
  datatype Item = Single(frame: seq<Byte>) | Pair(head: seq<Byte>, payload: seq<Byte>)

  ghost predicate WellSent(parse: seq<Byte> -> Message, item: Item) {
    match item
    case Single(frame) => !parse(frame).Notice?
    case Pair(head, _) => parse(head).Notice?
  }

  ghost predicate AllWellSent(parse: seq<Byte> -> Message, items: seq<Item>) {
    forall i :: 0 <= i < |items| ==> WellSent(parse, items[i])
  }

  function ItemFrames(item: Item): seq<seq<Byte>> {
    match item
    case Single(frame) => [frame]
    case Pair(head, payload) => [head, payload]
  }

  function FramesOf(items: seq<Item>): seq<seq<Byte>> {
    if items == [] then [] else ItemFrames(items[0]) + FramesOf(items[1..])
  }

  ghost function ItemEmissions(parse: seq<Byte> -> Message, item: Item): seq<Emission>
    requires WellSent(parse, item)
  {
    match item
    case Single(_) => []
    case Pair(head, payload) => [Emission(parse(head).target, parse(head).event, parse(head).data, payload)]
  }

  /** Each notification with the payload sent right after it. */
  ghost function EmissionsOf(parse: seq<Byte> -> Message, items: seq<Item>): seq<Emission>
    requires AllWellSent(parse, items)
  {
    if items == [] then [] else ItemEmissions(parse, items[0]) + EmissionsOf(parse, items[1..])
  }

  ghost function ItemReplies(parse: seq<Byte> -> Message, item: Item): seq<Event> {
    if item.Single? && parse(item.frame).Reply? && parse(item.frame).id != 0
    then [Response(parse(item.frame).id, parse(item.frame).verdict)]
    else []
  }

  /** The replies among the single frames, in order; a payload frame is never read as a message. */
  ghost function RepliesOf(parse: seq<Byte> -> Message, items: seq<Item>): seq<Event> {
    if items == [] then [] else ItemReplies(parse, items[0]) + RepliesOf(parse, items[1..])
  }

  lemma ItemProcessed(parse: seq<Byte> -> Message, p: Pairing, item: Item)
    requires Idle(p) && WellSent(parse, item)
    ensures ProcessAll(parse, p, ItemFrames(item)) ==
            Pairing(None, p.emitted + ItemEmissions(parse, item), p.replies + ItemReplies(parse, item))
  {
    match item
    case Single(frame) =>
      assert [frame][1..] == [] && p.emitted + [] == p.emitted && p.replies + [] == p.replies;
    case Pair(head, payload) =>
      assert [head, payload][1..] == [payload] && [payload][1..] == [];
      var q := Process(parse, p, head);
      var r := Process(parse, q, payload);
      assert ProcessAll(parse, p, [head, payload]) == ProcessAll(parse, q, [payload]) == ProcessAll(parse, r, []) == r;
      assert p.replies + [] == p.replies;
  }

  /** Processing the frames of any items pairs every payload with its own notification. */
  lemma {:induction false} PairsUp(parse: seq<Byte> -> Message, p: Pairing, items: seq<Item>)
    requires Idle(p) && AllWellSent(parse, items)
    ensures ProcessAll(parse, p, FramesOf(items)) ==
            Pairing(None, p.emitted + EmissionsOf(parse, items), p.replies + RepliesOf(parse, items))
    decreases |items|
  {
    hide Process, ItemFrames, ItemEmissions, ItemReplies, WellSent;
    if items == [] {
      assert p.emitted + [] == p.emitted && p.replies + [] == p.replies;
    } else {
      var first, later := ItemFrames(items[0]), items[1..];
      ProcessAppend(parse, p, first, FramesOf(later));
      ItemProcessed(parse, p, items[0]);
      PairsUp(parse, ProcessAll(parse, p, first), later);
      assert p.emitted + (ItemEmissions(parse, items[0]) + EmissionsOf(parse, later)) ==
             (p.emitted + ItemEmissions(parse, items[0])) + EmissionsOf(parse, later);
      assert p.replies + (ItemReplies(parse, items[0]) + RepliesOf(parse, later)) ==
             (p.replies + ItemReplies(parse, items[0])) + RepliesOf(parse, later);
    }
  }

  ghost predicate EmittedBy(parse: seq<Byte> -> Message, item: Item, e: Emission) {
    && item.Pair? && parse(item.head).Notice? && e.payload == item.payload
    && e.target == parse(item.head).target && e.event == parse(item.head).event && e.data == parse(item.head).data
  }

  ghost predicate RepliedBy(parse: seq<Byte> -> Message, item: Item, e: Event) {
    item.Single? && e.Response? && e.id != 0 && parse(item.frame) == Reply(e.id, e.verdict)
  }

  /** What is emitted and what is answered: exactly the pairs and the single replies, each where it was sent. */
  lemma PairedIff(parse: seq<Byte> -> Message, items: seq<Item>, e: Emission, r: Event)
    requires AllWellSent(parse, items)
    ensures var p := ProcessAll(parse, Pairing(None, [], []), FramesOf(items));
            && (e in p.emitted <==> exists i :: 0 <= i < |items| && EmittedBy(parse, items[i], e))
            && (r in p.replies <==> exists i :: 0 <= i < |items| && RepliedBy(parse, items[i], r))
  {
    hide ProcessAll;
    PairsUp(parse, Pairing(None, [], []), items);
    SentIff(parse, items, e, r);
  }

  lemma {:induction false} SentIff(parse: seq<Byte> -> Message, items: seq<Item>, e: Emission, r: Event)
    requires AllWellSent(parse, items)
    ensures e in EmissionsOf(parse, items) <==> exists i :: 0 <= i < |items| && EmittedBy(parse, items[i], e)
    ensures r in RepliesOf(parse, items) <==> exists i :: 0 <= i < |items| && RepliedBy(parse, items[i], r)
  {
    if items != [] {
      var later := items[1..];
      SentIff(parse, later, e, r);
      assert WellSent(parse, items[0]);
      assert e in ItemEmissions(parse, items[0]) <==> EmittedBy(parse, items[0], e);
      assert r in ItemReplies(parse, items[0]) <==> RepliedBy(parse, items[0], r);
      hide EmittedBy, RepliedBy, ItemEmissions, ItemReplies, WellSent;
      assert forall i :: 0 < i < |items| ==> items[i] == later[i - 1];
      assert forall i :: 0 <= i < |later| ==> later[i] == items[i + 1];
    }
  }

  /**
   Notification pairing, end to end, for every list of items and every way of cutting its wire form into chunks.
   The frames arrive as sent if and only if the buffer never goes over the limit; then each payload is emitted with
   the notification just before it, replies are dispatched in order, and nothing is left over.
   */
  lemma NotificationPairing(parse: seq<Byte> -> Message, items: seq<Item>, chunks: seq<seq<Byte>>, le: bool)
    requires AllWellSent(parse, items) && Encodable(FramesOf(items)) && Concat(chunks) == Wire(FramesOf(items), le)
    ensures var parts := ReceiveAll([], chunks, le);
            && (parts == Parts(FramesOf(items), []) <==> NeverFull([], chunks, le))
            && (NeverFull([], chunks, le) ==>
                  ProcessAll(parse, Pairing(None, [], []), parts.frames) ==
                  Pairing(None, EmissionsOf(parse, items), RepliesOf(parse, items)))
  {
    FramesArrive(FramesOf(items), chunks, le);
    PairsUp(parse, Pairing(None, [], []), items);
    assert [] + EmissionsOf(parse, items) == EmissionsOf(parse, items);
    assert [] + RepliesOf(parse, items) == RepliesOf(parse, items);
  }

  /**
   The dropped buffer does not drop the waiting notification. Whatever the notification, if its payload overflows
   the buffer, the next frame is emitted in its place: here a reply, which never reaches its request.
   */
  lemma OverflowMispairs(parse: seq<Byte> -> Message, head: seq<Byte>, payload: seq<Byte>, reply: seq<Byte>, le: bool)
    requires parse(head).Notice? && parse(reply).Reply?
    requires |head| <= PAYLOAD_MAX_LEN - 4 < |payload| < 0x1_0000_0000 && |reply| <= PAYLOAD_MAX_LEN - 4
    ensures var chunks := [Encode(head, le), Encode(payload, le), Encode(reply, le)];
            && ReceiveAll([], chunks, le) == Parts([head, reply], [])
            && ProcessAll(parse, Pairing(None, [], []), [head, reply]) ==
               Pairing(None, [Emission(parse(head).target, parse(head).event, parse(head).data, reply)], [])
  {
    var last := [Encode(reply, le)];
    var chunks := [Encode(head, le), Encode(payload, le)] + last;
    var later := [Encode(payload, le)] + last;
    assert chunks[1..] == later && later[1..] == last && last[1..] == [];
    OneFrame(head, le);
    OneFrame(reply, le);
    assert ReceiveAll([], last, le) == Parts([reply], []);
    assert ReceiveAll([], later, le) == Parts([reply], []);
    assert [head] + [reply] == [head, reply] && [head, reply][1..] == [reply] && [reply][1..] == [];
    var p := Process(parse, Pairing(None, [], []), head);
    var q := Process(parse, p, reply);
    assert ProcessAll(parse, Pairing(None, [], []), [head, reply]) == ProcessAll(parse, p, [reply])
        == ProcessAll(parse, q, []) == q;
  }

  lemma OneFrame(frame: seq<Byte>, le: bool)
    requires |frame| <= PAYLOAD_MAX_LEN - 4
    ensures Receive([], Encode(frame, le), le) == Parts([frame], [])
  {
    hide WriteU32, Split;
    SplitOfWire([frame], le);
    assert [frame][1..] == [] && Encode(frame, le) + [] == Encode(frame, le);
    assert [] + Encode(frame, le) == Encode(frame, le);
  }

  class PayloadChannel {
    const le: bool
    const parse: seq<Byte> -> Message
    var recvBuffer: seq<Byte>
    var ongoingNotification: Option<Message>
    var emitted: seq<Emission>
    var requests: Table
    ghost var first: Table        // the request table before the replies below
    ghost var replies: seq<Event>

    ghost predicate Valid()
      reads this
    {
      (ongoingNotification.Some? ==> ongoingNotification.value.Notice?) && requests == Run(first, replies)
    }

    ghost function State(): Pairing
      reads this
    {
      Pairing(ongoingNotification, emitted, replies)
    }

    constructor (le: bool, parse: seq<Byte> -> Message, requests: Table)
      ensures Valid() && this.le == le && this.parse == parse
      ensures first == requests && recvBuffer == [] && State() == Pairing(None, [], [])
    {
      this.le, this.parse := le, parse;
      recvBuffer, ongoingNotification, emitted := [], None, [];
      this.requests, first, replies := requests, requests, [];
    }

    method ProcessData(data: seq<Byte>)
      requires Valid()
      modifies this
      ensures Valid() && State() == Process(parse, old(State()), data)
      ensures recvBuffer == old(recvBuffer) && first == old(first)
    {
      if ongoingNotification.None? {
        var msg := parse(data);
        if msg.Reply? && msg.id != 0 {
          RunAppend(first, replies, [Response(msg.id, msg.verdict)]);
          requests := Step(requests, Response(msg.id, msg.verdict));
          replies := replies + [Response(msg.id, msg.verdict)];
        } else if msg.Notice? {
          ongoingNotification := Some(msg);
        }
      } else {
        var notice := ongoingNotification.value;
        emitted := emitted + [Emission(notice.target, notice.event, notice.data, data)];
        ongoingNotification := None;
      }
    }

    /** The data handler. A full buffer is dropped, but a notification waiting for its payload is not. */
    method OnData(buffer: seq<Byte>)
      requires Valid()
      modifies this
      ensures Valid() && first == old(first)
      ensures recvBuffer == Receive(old(recvBuffer), buffer, le).rest
      ensures State() == ProcessAll(parse, old(State()), Receive(old(recvBuffer), buffer, le).frames)
    {
      hide ReadU32, Run, SplitUpTo, Process;
      recvBuffer := if recvBuffer == [] then buffer else recvBuffer + buffer;
      assert recvBuffer == old(recvBuffer) + buffer;
      if |recvBuffer| > PAYLOAD_MAX_LEN {
        recvBuffer := [];
        return;
      }
      var msgStart := 0;
      ghost var whole := recvBuffer;
      ghost var frames: seq<seq<Byte>> := [];
      SplitStarts(whole, le);
      while true
        invariant Valid() && first == old(first)
        invariant 0 <= msgStart <= |recvBuffer| && recvBuffer == whole
        invariant SplitUpTo(whole, msgStart, frames, le)
        invariant State() == ProcessAll(parse, old(State()), frames)
        decreases |recvBuffer| - msgStart
      {
        var readLen := |recvBuffer| - msgStart;
        if readLen < 4 {
          break;
        }
        var msgLen := ReadU32(recvBuffer[msgStart..], le);
        if readLen < 4 + msgLen {
          break;
        }
        var payload := recvBuffer[msgStart + 4..msgStart + 4 + msgLen];
        SplitStep(whole, msgStart, frames, le);
        msgStart := msgStart + 4 + msgLen;
        ProcessSnoc(parse, old(State()), frames, payload);
        ProcessData(payload);
        frames := frames + [payload];
      }
      SplitDone(whole, msgStart, frames, le);
      if msgStart != 0 {
        recvBuffer := recvBuffer[msgStart..];
      }
    }

    /** Any sequence of data events, so that the pairing applies to the channel. */
    method OnDataEvents(chunks: seq<seq<Byte>>)
      requires Valid()
      modifies this
      ensures Valid() && first == old(first)
      ensures recvBuffer == ReceiveAll(old(recvBuffer), chunks, le).rest
      ensures State() == ProcessAll(parse, old(State()), ReceiveAll(old(recvBuffer), chunks, le).frames)
    {
      hide Receive, Process, Run;
      if chunks != [] {
        ghost var now := Receive(recvBuffer, chunks[0], le);
        ProcessAppend(parse, State(), now.frames, ReceiveAll(now.rest, chunks[1..], le).frames);
        OnData(chunks[0]);
        OnDataEvents(chunks[1..]);
      }
    }
  }

  lemma ProcessSnoc(parse: seq<Byte> -> Message, p: Pairing, a: seq<seq<Byte>>, frame: seq<Byte>)
    requires WellFormed(p)
    ensures ProcessAll(parse, p, a + [frame]) == Process(parse, ProcessAll(parse, p, a), frame)
  {
    ProcessAppend(parse, p, a, [frame]);
    assert [frame][1..] == [];
  }
}
