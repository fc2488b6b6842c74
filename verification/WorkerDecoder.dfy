/** The Go side of the worker protocol: Encode, and the Decoder that is fed one read at a time. */
module WorkerDecoder {
  import opened Framing

  const LEFT_BRACE: Byte := 123
  const RIGHT_BRACE: Byte := 125
  const MSG_RESP_MAX_LEN := 4194304

  datatype State = ParseLength | ParseSeparator | ParseData | ParseEnd

  /** Encode(): the length is cut to 32 bits. */
  function EncodeMessage(payload: seq<Byte>): seq<Byte> {
    WriteU32(|payload| % 0x1_0000_0000, true) + payload
  }

  /** Reference definition of what one Feed delivers. */
  function Messages(s: seq<Byte>): seq<seq<Byte>>
    decreases |s|
  {
    if |s| < 5 || s[4] != LEFT_BRACE then []
    else
      var n := ReadU32(s, true);
      if n == 0 || n > MSG_RESP_MAX_LEN || n > |s| - 4 then []
      else (if s[3 + n] == RIGHT_BRACE then [s[4..4 + n]] else []) + Messages(s[4 + n..])
  }

  /** A length and an opening brace have been read; the message is complete or nothing more is delivered. */
  lemma NextMessage(data: seq<Byte>, i: nat, n: nat)
    requires 4 <= i < |data| && data[i] == LEFT_BRACE
    requires n == ReadU32(data[i - 4..], true) && 1 <= n <= MSG_RESP_MAX_LEN
    ensures n > |data| - i ==> Messages(data[i - 4..]) == []
    ensures n <= |data| - i ==>
      Messages(data[i - 4..]) ==
      (if data[i + n - 1] == RIGHT_BRACE then [data[i..i + n]] else []) + Messages(data[i + n..])
  {
    hide ReadU32;
    var s := data[i - 4..];
    if n <= |data| - i {
      assert s[4..4 + n] == data[i..i + n] && s[4 + n..] == data[i + n..] && s[3 + n] == data[i + n - 1];
    }
  }

  class Decoder {
    var parsedData: seq<Byte>
    var length: nat
    var state: State
    var output: seq<seq<Byte>>  // what went into the channel of results

    ghost predicate IsReset()
      reads this
    {
      parsedData == [] && length == 0 && state == ParseLength
    }

    constructor ()
      ensures IsReset() && output == []
    {
      parsedData, length, state, output := [], 0, ParseLength, [];
    }

    method Reset()
      modifies this
      ensures IsReset() && output == old(output)
    {
      parsedData, length, state := [], 0, ParseLength;
    }

    /** parseLengthForPre4Byte(); the recovered panic on a short read has the same effect as the error. */
    method ReadLength(i: nat, data: seq<Byte>) returns (i': nat, err: bool)
      requires i <= |data|
      modifies this
      ensures output == old(output) && parsedData == old(parsedData)
      ensures err ==> Messages(data[i..]) == []
      ensures !err ==>
        && i' == i + 4 <= |data| && state == ParseData
        && length == ReadU32(data[i..], true) && 1 <= length <= MSG_RESP_MAX_LEN
        && (i' < |data| ==> data[i'] == LEFT_BRACE)
    {
      hide ReadU32;
      var size := |data| - i;
      if size < 4 || (size > 4 && data[i + 4] != LEFT_BRACE) {
        return i, true;
      }
      var dataLength := ReadU32(data[i..], true);
      if dataLength <= 0 || dataLength > size || dataLength > MSG_RESP_MAX_LEN {
        return i, true;
      }
      length, state := dataLength, ParseData;
      return i + 4, false;
    }

    method ReadData(i: nat, data: seq<Byte>) returns (i': nat, err: bool)
      requires i <= |data| && length >= 1
      modifies this
      ensures output == old(output)
      ensures err <==> old(length) > |data| - i
      ensures !err ==>
        && i' == i + old(length) - 1 && state == ParseEnd && length == 0
        && parsedData == old(parsedData) + data[i..i + old(length)]
    {
      var dataSize := |data| - i;
      if length > dataSize {
        return i, true;
      }
      var dataLength := if length < dataSize then length else dataSize;
      parsedData := parsedData + data[i..i + dataLength];
      length := length - dataLength;
      if length == 0 {
        state := ParseEnd;
      } else {
        assert false;
      }
      return i + dataLength - 1, false;
    }

    method ReadEnd(i: nat, data: seq<Byte>) returns (i': nat)
      requires i < |data|
      modifies this
      ensures IsReset() && i' == i + 1
      ensures output == old(output) + if data[i] == RIGHT_BRACE then [old(parsedData)] else []
    {
      if data[i] == RIGHT_BRACE {
        output := output + [parsedData];
      }
      Reset();
      return i + 1;
    }

    /** What is still to come, by state; ParseSeparator is never reached. */
    ghost predicate Expects(i: nat, data: seq<Byte>, later: seq<seq<Byte>>)
      reads this
    {
      match state
      case ParseLength => parsedData == [] && length == 0 && i <= |data| && later == Messages(data[i..])
      case ParseData =>
        && parsedData == [] && 4 <= i <= |data| && later == Messages(data[i - 4..])
        && length == ReadU32(data[i - 4..], true) && 1 <= length <= MSG_RESP_MAX_LEN
        && (i < |data| ==> data[i] == LEFT_BRACE)
      case ParseEnd =>
        && length == 0 && i < |data|
        && later == (if data[i] == RIGHT_BRACE then [parsedData] else []) + Messages(data[i + 1..])
      case ParseSeparator => false
    }

    ghost function Rank(): nat
      reads this
    {
      match state case ParseLength => 0 case ParseSeparator => 0 case ParseData => 2 case ParseEnd => 1
    }

    /** parse(): one step of the state machine. */
    method Parse(i: nat, data: seq<Byte>, ghost later: seq<seq<Byte>>)
      returns (i': nat, err: bool, ghost later': seq<seq<Byte>>)
      requires i < |data| && Expects(i, data, later)
      modifies this
      ensures err ==> output == old(output) && later == []
      ensures !err ==> Expects(i', data, later') && output + later' == old(output) + later
      ensures !err ==> i' > i || (i' == i && Rank() < old(Rank()))
    {
      hide ReadU32, Messages;
      later' := later;
      match state
      case ParseLength =>
        i', err := ReadLength(i, data);
      case ParseData =>
        NextMessage(data, i, length);
        ghost var n := length;
        i', err := ReadData(i, data);
        if !err {
          assert parsedData == [] + data[i..i + n] == data[i..i + n];
        }
      case ParseEnd =>
        ghost var out := if data[i] == RIGHT_BRACE then [parsedData] else [];
        later' := Messages(data[i + 1..]);
        i' := ReadEnd(i, data);
        err := false;
        assert output + later' == old(output) + (out + later');
    }

    /** Feed() ends on every input, delivers exactly Messages(data), and leaves the decoder reset. */
    method Feed(data: seq<Byte>)
      requires IsReset()
      modifies this
      ensures IsReset() && output == old(output) + Messages(data)
    {
      var i, err := 0, false;
      ghost var later := Messages(data);
      assert data[0..] == data;
      while i < |data| && !err
        invariant err ==> output == old(output) + Messages(data)
        invariant !err ==> Expects(i, data, later) && output + later == old(output) + Messages(data)
        decreases !err, |data| - i, Rank()
      {
        ghost var before := output;
        i, err, later := Parse(i, data, later);
        if err {
          assert before + [] == before;
        }
      }
      if !err {
        NothingLeft(i, data, later);
        assert output + [] == output;
      }
      Reset();
    }

    lemma NothingLeft(i: nat, data: seq<Byte>, later: seq<seq<Byte>>)
      requires i >= |data| && Expects(i, data, later)
      ensures later == []
    {}

    /** One Feed per read from the socket. */
    method FeedAll(chunks: seq<seq<Byte>>)
      requires IsReset()
      modifies this
      ensures IsReset() && output == old(output) + Delivered(chunks)
    {
      hide Messages;
      if chunks != [] {
        ghost var now, later := Messages(chunks[0]), Delivered(chunks[1..]);
        Feed(chunks[0]);
        FeedAll(chunks[1..]);
        assert old(output) + (now + later) == old(output) + now + later;
      }
    }
  }

  function Delivered(chunks: seq<seq<Byte>>): seq<seq<Byte>> {
    if chunks == [] then [] else Messages(chunks[0]) + Delivered(chunks[1..])
  }

  // ----- What is delivered -----

  /** A message the decoder accepts: an object in braces, of bounded length. */
  predicate IsMessage(p: seq<Byte>) {
    2 <= |p| <= MSG_RESP_MAX_LEN && p[0] == LEFT_BRACE && p[|p| - 1] == RIGHT_BRACE
  }

  ghost predicate AllMessages(ps: seq<seq<Byte>>) {
    forall i :: 0 <= i < |ps| ==> IsMessage(ps[i])
  }

  /** Only messages are delivered, whatever is fed. */
  lemma {:induction false} OnlyMessages(s: seq<Byte>)
    ensures AllMessages(Messages(s))
    decreases |s|
  {
    hide ReadU32;
    if !(|s| < 5 || s[4] != LEFT_BRACE) {
      var n := ReadU32(s, true);
      if !(n == 0 || n > MSG_RESP_MAX_LEN || n > |s| - 4) {
        OnlyMessages(s[4 + n..]);
        var p := s[4..4 + n];
        assert p[0] == s[4] && p[n - 1] == s[3 + n];
      }
    }
  }

  /** Encode is the wire form of a frame as long as the length fits 32 bits. */
  lemma EncodeIsFrame(p: seq<Byte>)
    requires |p| < 0x1_0000_0000
    ensures EncodeMessage(p) == Encode(p, true)
  {
    hide WriteU32;
  }

  /** Decoding undoes encoding: whole messages fed at once come out unchanged and in order. */
  lemma {:induction false} MessagesOfWire(ps: seq<seq<Byte>>)
    requires AllMessages(ps)
    ensures Encodable(ps) && Messages(Wire(ps, true)) == ps
  {
    hide ReadU32, WriteU32, Messages;
    if ps == [] {
      NothingOpens([]);
    } else {
      MessagesOfWire(ps[1..]);
      var p, later := ps[0], Wire(ps[1..], true);
      var s := WriteU32(|p|, true) + (p + later);
      assert Wire(ps, true) == s;
      U32RoundTrip(|p|, p + later, true);
      assert s[4..4 + |p|] == p && s[4 + |p|..] == later && s[4] == p[0] && s[3 + |p|] == p[|p| - 1];
      OpensWith(s, |p|);
      assert ps == [p] + ps[1..];
    }
  }

  /** Delivered messages take no more bytes than were fed, and all of them only if the read held whole messages. */
  lemma {:induction false} MessagesConserve(s: seq<Byte>)
    ensures AllMessages(Messages(s)) && Encodable(Messages(s))
    ensures WireLength(Messages(s)) <= |s|
    ensures WireLength(Messages(s)) == |s| ==> s == Wire(Messages(s), true)
    decreases |s|, 1
  {
    hide ReadU32, Wire, Encodable, Messages;
    OnlyMessages(s);
    NoMessages();
    if Opens(s) {
      MessagesConserveStep(s, ReadU32(s, true));
    } else {
      NothingOpens(s);
    }
  }

  /** The read starts with a frame that the decoder goes past. */
  ghost predicate Opens(s: seq<Byte>) {
    |s| >= 5 && s[4] == LEFT_BRACE && var n := ReadU32(s, true); 0 < n <= MSG_RESP_MAX_LEN && n <= |s| - 4
  }

  lemma NothingOpens(s: seq<Byte>)
    requires !Opens(s)
    ensures Messages(s) == []
  {
    hide ReadU32;
  }

  lemma OpensWith(s: seq<Byte>, n: nat)
    requires Opens(s) && n == ReadU32(s, true)
    ensures Messages(s) == (if s[3 + n] == RIGHT_BRACE then [s[4..4 + n]] else []) + Messages(s[4 + n..])
  {
    hide ReadU32;
  }

  lemma {:induction false} MessagesConserveStep(s: seq<Byte>, n: nat)
    requires Opens(s) && n == ReadU32(s, true) && Encodable([]) && AllMessages(Messages(s))
    ensures Encodable(Messages(s)) && WireLength(Messages(s)) <= |s|
    ensures WireLength(Messages(s)) == |s| ==> s == Wire(Messages(s), true)
    decreases |s|, 0
  {
    hide ReadU32, WriteU32, Wire, Encodable, Messages, AllMessages;
    var p, later := s[4..4 + n], s[4 + n..];
    OpensWith(s, n);
    MessagesConserve(later);
    var rest := Messages(later);
    if s[3 + n] == RIGHT_BRACE {
      assert ([p] + rest)[1..] == rest;
      WriteOfRead(s);
      assert s == (s[..4] + p) + later;
      OneMore(s, p, later, rest);
    } else {
      assert [] + rest == rest;
    }
  }

  lemma NoMessages()
    ensures Encodable([]) && Wire([], true) == []
  {}

  lemma OneMore(s: seq<Byte>, p: seq<Byte>, later: seq<Byte>, rest: seq<seq<Byte>>)
    requires |s| >= 4 && |p| == ReadU32(s, true) && s == (s[..4] + p) + later
    requires WriteU32(|p|, true) == s[..4] && Encodable(rest)
    ensures Encodable([p] + rest)
    ensures later == Wire(rest, true) ==> s == Wire([p] + rest, true)
  {
    hide ReadU32, WriteU32;
    assert ([p] + rest)[1..] == rest;
  }

  lemma LowDigit(a: int, m: int)
    requires 0 <= a < 0x100 && 0 <= m
    ensures (a + 0x100 * m) % 0x100 == a && (a + 0x100 * m) / 0x100 == m
  {}

  /** The four length bytes are the only ones that read as that length. */
  lemma WriteOfRead(s: seq<Byte>)
    requires |s| >= 4
    ensures WriteU32(ReadU32(s, true), true) == s[..4]
  {
    var a, b, c, d := s[0] as int, s[1] as int, s[2] as int, s[3] as int;
    var n := ReadU32(s, true);
    var n2 := c + 0x100 * d;
    var n1 := b + 0x100 * n2;
    assert n == a + 0x100 * n1;
    LowDigit(a, n1);
    LowDigit(b, n2);
    LowDigit(c, d);
    assert n / 0x1_0000 == n / 0x100 / 0x100 && n / 0x100_0000 == n / 0x1_0000 / 0x100;
  }

  lemma {:induction false} WireIsLong(ps: seq<seq<Byte>>, le: bool)
    requires Encodable(ps)
    ensures |Wire(ps, le)| == WireLength(ps)
  {
    if ps != [] {
      WireIsLong(ps[1..], le);
    }
  }

  lemma {:induction false} WireAppend(a: seq<seq<Byte>>, b: seq<seq<Byte>>, le: bool)
    requires Encodable(a) && Encodable(b)
    ensures Wire(a + b, le) == Wire(a, le) + Wire(b, le)
  {
    if a == [] {
      assert a + b == b;
    } else {
      assert (a + b)[1..] == a[1..] + b;
      WireAppend(a[1..], b, le);
    }
  }

  /** The read holds whole messages and nothing else. */
  ghost predicate WholeMessages(chunk: seq<Byte>) {
    exists ms :: IsWireOf(chunk, ms)
  }

  ghost predicate IsWireOf(chunk: seq<Byte>, ms: seq<seq<Byte>>) {
    AllMessages(ms) && Encodable(ms) && chunk == Wire(ms, true)
  }

  lemma WholeIff(chunk: seq<Byte>)
    ensures WholeMessages(chunk) <==> WireLength(Messages(chunk)) == |chunk|
  {
    hide Messages, Wire, WireLength, AllMessages, Encodable;
    MessagesConserve(chunk);
    if WireLength(Messages(chunk)) == |chunk| {
      assert IsWireOf(chunk, Messages(chunk));
    }
    if WholeMessages(chunk) {
      var ms :| IsWireOf(chunk, ms);
      MessagesOfWire(ms);
      WireIsLong(ms, true);
    }
  }

  lemma {:induction false} DeliveredConserve(chunks: seq<seq<Byte>>)
    ensures Encodable(Delivered(chunks)) && WireLength(Delivered(chunks)) <= |Concat(chunks)|
    ensures WireLength(Delivered(chunks)) == |Concat(chunks)|
            <==> forall i :: 0 <= i < |chunks| ==> WholeMessages(chunks[i])
    ensures WireLength(Delivered(chunks)) == |Concat(chunks)| ==> Concat(chunks) == Wire(Delivered(chunks), true)
  {
    hide Messages, Wire, Encodable, WholeMessages;
    NoMessages();
    if chunks != [] {
      var head, later := Messages(chunks[0]), Delivered(chunks[1..]);
      DeliveredConserve(chunks[1..]);
      MessagesConserve(chunks[0]);
      WholeIff(chunks[0]);
      EncodableAppend(head, later);
      WireLengthAppend(head, later);
      WireAppend(head, later, true);
    }
  }

  lemma EncodableAppend(a: seq<seq<Byte>>, b: seq<seq<Byte>>)
    requires Encodable(a) && Encodable(b)
    ensures Encodable(a + b)
  {}

  /** A byte position at which a message of the stream ends, or its start. */
  ghost predicate Boundary(ps: seq<seq<Byte>>, n: nat) {
    exists k :: 0 <= k <= |ps| && WireLength(ps[..k]) == n
  }

  /** No message straddles two reads: after every read the stream is at a boundary. */
  ghost predicate CutsFall(ps: seq<seq<Byte>>, chunks: seq<seq<Byte>>) {
    forall i :: 0 <= i <= |chunks| ==> Boundary(ps, |Concat(chunks[..i])|)
  }

  lemma CutAt(ps: seq<seq<Byte>>, k: nat, chunk: seq<Byte>, later: seq<Byte>)
    requires Encodable(ps) && k <= |ps| && chunk + later == Wire(ps, true) && |chunk| == WireLength(ps[..k])
    ensures Encodable(ps[..k]) && Encodable(ps[k..]) && chunk == Wire(ps[..k], true) && later == Wire(ps[k..], true)
  {
    hide Wire, WireLength;
    var a, b := ps[..k], ps[k..];
    assert ps == a + b;
    WireAppend(a, b, true);
    WireIsLong(a, true);
    assert (chunk + later)[..|chunk|] == chunk && (chunk + later)[|chunk|..] == later;
  }

  /** Boundaries of a stream that lie behind its k-th message are boundaries of the rest. */
  lemma BoundaryAfter(ps: seq<seq<Byte>>, k: nat, n: nat)
    requires k <= |ps| && Boundary(ps, n) && n >= WireLength(ps[..k])
    ensures Boundary(ps[k..], n - WireLength(ps[..k]))
  {
    hide WireLength;
    var m :| 0 <= m <= |ps| && WireLength(ps[..m]) == n;
    if m >= k {
      assert ps[..m] == ps[..k] + ps[k..][..m - k];
      WireLengthAppend(ps[..k], ps[k..][..m - k]);
    } else {
      assert ps[..k] == ps[..m] + ps[m..k] && ps[k..][..0] == [];
      WireLengthAppend(ps[..m], ps[m..k]);
      NoLength();
    }
  }

  lemma NoLength()
    ensures WireLength([]) == 0
  {}

  lemma {:induction false} ConcatSplit(chunks: seq<seq<Byte>>, i: nat)
    requires i <= |chunks|
    ensures |Concat(chunks)| == |Concat(chunks[..i])| + |Concat(chunks[i..])|
    ensures 0 < i ==> |Concat(chunks[..i])| == |chunks[0]| + |Concat(chunks[1..][..i - 1])|
  {
    if i == 0 {
      assert chunks[0..] == chunks && chunks[..0] == [];
    } else {
      assert chunks[..i][1..] == chunks[1..][..i - 1] && chunks[1..][i - 1..] == chunks[i..];
      ConcatSplit(chunks[1..], i - 1);
    }
  }

  lemma CutsFallLater(ps: seq<seq<Byte>>, k: nat, chunks: seq<seq<Byte>>)
    requires chunks != [] && k <= |ps| && CutsFall(ps, chunks) && |chunks[0]| == WireLength(ps[..k])
    ensures CutsFall(ps[k..], chunks[1..])
  {
    hide Boundary, Concat, WireLength;
    var rest := chunks[1..];
    forall i | 0 <= i <= |rest| ensures Boundary(ps[k..], |Concat(rest[..i])|) {
      ConcatSplit(chunks, i + 1);
      assert Boundary(ps, |Concat(chunks[..i + 1])|);
      BoundaryAfter(ps, k, |Concat(chunks[..i + 1])|);
    }
  }

  /** Cut at its boundaries, a stream is delivered. */
  lemma {:induction false} DeliveredIfCut(ps: seq<seq<Byte>>, chunks: seq<seq<Byte>>)
    requires AllMessages(ps) && Encodable(ps) && Concat(chunks) == Wire(ps, true) && CutsFall(ps, chunks)
    ensures Delivered(chunks) == ps
    decreases |chunks|
  {
    hide Messages, Wire, WireLength, CutsFall, Encodable;
    if chunks == [] {
      WireIsLong(ps, true);
      EmptyWire(ps);
    } else {
      var k := FirstCut(ps, chunks);
      var later := Concat(chunks[1..]);
      CutAt(ps, k, chunks[0], later);
      MessagesOfWire(ps[..k]);
      CutsFallLater(ps, k, chunks);
      DeliveredIfCut(ps[k..], chunks[1..]);
      assert ps == ps[..k] + ps[k..];
    }
  }

  lemma EmptyWire(ps: seq<seq<Byte>>)
    requires WireLength(ps) == 0
    ensures ps == []
  {}

  lemma FirstCut(ps: seq<seq<Byte>>, chunks: seq<seq<Byte>>) returns (k: nat)
    requires chunks != [] && CutsFall(ps, chunks)
    ensures k <= |ps| && WireLength(ps[..k]) == |chunks[0]|
  {
    hide WireLength;
    assert Boundary(ps, |Concat(chunks[..1])|);
    assert chunks[..1][1..] == [] && chunks[0] + [] == chunks[0];
    k :| 0 <= k <= |ps| && WireLength(ps[..k]) == |Concat(chunks[..1])|;
  }

  lemma {:induction false} DeliveredAppend(a: seq<seq<Byte>>, b: seq<seq<Byte>>)
    ensures Delivered(a + b) == Delivered(a) + Delivered(b)
  {
    hide Messages;
    if a == [] {
      assert a + b == b;
    } else {
      assert (a + b)[1..] == a[1..] + b;
      DeliveredAppend(a[1..], b);
    }
  }

  /** Reads that hold whole messages end at boundaries. */
  lemma CutIfWhole(ps: seq<seq<Byte>>, chunks: seq<seq<Byte>>)
    requires Delivered(chunks) == ps && forall i :: 0 <= i < |chunks| ==> WholeMessages(chunks[i])
    ensures CutsFall(ps, chunks)
  {
    hide Messages, Wire, WireLength, WholeMessages, Delivered, Concat, Encodable;
    forall i | 0 <= i <= |chunks| ensures Boundary(ps, |Concat(chunks[..i])|) {
      assert chunks == chunks[..i] + chunks[i..];
      DeliveredAppend(chunks[..i], chunks[i..]);
      DeliveredConserve(chunks[..i]);
      var k := |Delivered(chunks[..i])|;
      assert ps[..k] == Delivered(chunks[..i]);
    }
  }

  /**
   The decoder keeps nothing between reads. A stream of messages therefore comes out complete exactly when no
   message straddles two reads, that is when every read holds whole messages.
   */
  lemma DeliveredIff(ps: seq<seq<Byte>>, chunks: seq<seq<Byte>>)
    requires AllMessages(ps) && Encodable(ps) && Concat(chunks) == Wire(ps, true)
    ensures Delivered(chunks) == ps <==> CutsFall(ps, chunks)
    ensures Delivered(chunks) == ps <==> forall i :: 0 <= i < |chunks| ==> WholeMessages(chunks[i])
  {
    hide Wire, Delivered, CutsFall, WholeMessages, Concat;
    DeliveredConserve(chunks);
    WireIsLong(ps, true);
    if CutsFall(ps, chunks) {
      DeliveredIfCut(ps, chunks);
    }
    if WireLength(Delivered(chunks)) == |Concat(chunks)| {
      SplitOfWire(ps, true);
      SplitOfWire(Delivered(chunks), true);
      CutIfWhole(ps, chunks);
    }
  }

  /** Any message, cut anywhere inside its wire form, is lost. */
  lemma StraddlingRead(p: seq<Byte>, n: nat)
    requires IsMessage(p) && 0 < n < |EncodeMessage(p)|
    ensures p !in Delivered([EncodeMessage(p)[..n], EncodeMessage(p)[n..]])
  {
    hide WriteU32, Messages, Delivered, CutsFall;
    var w := EncodeMessage(p);
    var first: seq<seq<Byte>>, second: seq<seq<Byte>> := [w[..n]], [w[n..]];
    var chunks := [w[..n], w[n..]];
    EncodeIsFrame(p);
    OneWire(p);
    OneChunk(w[..n]);
    OneChunk(w[n..]);
    assert chunks[1..] == second && chunks[..1] == first;
    assert w[..n] + w[n..] == w;
    DeliveredIff([p], chunks);
    CutHere([p], chunks, 1);
    assert !Boundary([p], n) by {
      assert [p][..0] == [] && [p][..1] == [p] && [p][1..] == [];
    }
    DeliveredConserve(chunks);
    if p in Delivered(chunks) {
      NothingElse(Delivered(chunks), p);
    }
  }

  /** A list that takes no more bytes than one of its members has no other member. */
  lemma NothingElse(ps: seq<seq<Byte>>, p: seq<Byte>)
    requires p in ps && WireLength(ps) <= 4 + |p|
    ensures ps == [p]
  {
    hide WireLength;
    var i :| 0 <= i < |ps| && ps[i] == p;
    var a, b := ps[..i], ps[i + 1..];
    assert ps == a + ([p] + b);
    WireLengthAppend(a, [p] + b);
    WireLengthAppend([p], b);
    assert WireLength([p]) == 4 + |p| by {
      OneLength(p);
    }
    EmptyWire(a);
    EmptyWire(b);
  }

  lemma OneLength(p: seq<Byte>)
    ensures WireLength([p]) == 4 + |p|
  {
    assert [p][1..] == [];
  }

  lemma CutHere(ps: seq<seq<Byte>>, chunks: seq<seq<Byte>>, i: nat)
    requires i <= |chunks|
    ensures CutsFall(ps, chunks) ==> Boundary(ps, |Concat(chunks[..i])|)
  {}

  lemma OneWire(p: seq<Byte>)
    requires |p| < 0x1_0000_0000
    ensures Wire([p], true) == Encode(p, true)
  {
    hide WriteU32;
    assert [p][1..] == [] && Encode(p, true) + [] == Encode(p, true);
  }

  lemma OneChunk(chunk: seq<Byte>)
    ensures Concat([chunk]) == chunk
  {
    assert [chunk][1..] == [] && chunk + [] == chunk;
  }

  lemma {:induction false} MessagesFit(s: seq<Byte>)
    ensures forall p <- Messages(s) :: |p| + 4 <= |s|
    decreases |s|
  {
    hide ReadU32;
    if Opens(s) {
      OpensWith(s, ReadU32(s, true));
      MessagesFit(s[4 + ReadU32(s, true)..]);
    } else {
      NothingOpens(s);
    }
  }

  /** A read returns at most 4194304 bytes, so the longest payloads that the decoder accepts never arrive. */
  lemma {:induction false} LongestDelivered(chunks: seq<seq<Byte>>)
    requires forall i :: 0 <= i < |chunks| ==> |chunks[i]| <= 4194304
    ensures forall p <- Delivered(chunks) :: |p| <= 4194300 < MSG_RESP_MAX_LEN
  {
    hide Messages;
    if chunks != [] {
      MessagesFit(chunks[0]);
      LongestDelivered(chunks[1..]);
    }
  }

  // ----- Frames that are no messages -----

  /** The decoder goes past such a frame, delivered or not. */
  ghost predicate IsOpened(p: seq<Byte>) {
    1 <= |p| <= 4194304 && p[0] == 123
  }

  ghost predicate AllOpened(ps: seq<seq<Byte>>) {
    forall i :: 0 <= i < |ps| ==> IsOpened(ps[i])
  }

  /** Those that end in a closing brace. */
  ghost function Ended(ps: seq<seq<Byte>>): seq<seq<Byte>>
    requires AllOpened(ps)
  {
    if ps == [] then [] else (if ps[0][|ps[0]| - 1] == 125 then [ps[0]] else []) + Ended(ps[1..])
  }

  /** A read of frames that open with a brace delivers those that close with one; the others are skipped. */
  lemma {:induction false} MessagesOfFrames(ps: seq<seq<Byte>>, later: seq<Byte>)
    requires AllOpened(ps)
    ensures Encodable(ps) && Messages(Wire(ps, true) + later) == Ended(ps) + Messages(later)
    decreases |ps|
  {
    hide ReadU32, WriteU32, Messages;
    if ps == [] {
      assert Wire([], true) + later == later && Ended(ps) + Messages(later) == Messages(later);
    } else {
      MessagesOfFrames(ps[1..], later);
      var p, rest := ps[0], Wire(ps[1..], true) + later;
      var s := WriteU32(|p|, true) + (p + rest);
      assert Wire(ps, true) + later == s;
      U32RoundTrip(|p|, p + rest, true);
      assert s[4..4 + |p|] == p && s[4 + |p|..] == rest && s[4] == p[0] && s[3 + |p|] == p[|p| - 1];
      OpensWith(s, |p|);
    }
  }

  /** A frame that does not open with a brace ends the read: what is behind it is lost. */
  lemma StrayFrameEndsRead(ps: seq<seq<Byte>>, stray: seq<Byte>, later: seq<Byte>)
    requires AllOpened(ps) && 1 <= |stray| < 0x1_0000_0000 && stray[0] != 123
    ensures Encodable(ps) && Messages(Wire(ps, true) + (Encode(stray, true) + later)) == Ended(ps)
  {
    hide WriteU32, Messages;
    var s := Encode(stray, true) + later;
    MessagesOfFrames(ps, s);
    assert s[4] == stray[0];
    NothingOpens(s);
    assert Ended(ps) + [] == Ended(ps);
  }
}
