/** Length-prefixed frames, and a receiver that is handed a stream in chunks. */
module Framing {
  type Byte = b: int | 0 <= b < 256

  const PAYLOAD_MAX_LEN := 4194304

  /** Four bytes, least significant first, as a number. */
  function FromDigits(a: Byte, b: Byte, c: Byte, d: Byte): (n: nat)
    ensures n < 0x1_0000_0000
  {
    (a as int) + (b as int) * 0x100 + (c as int) * 0x1_0000 + (d as int) * 0x100_0000
  }

  /** A 32-bit unsigned integer in host byte order. */
  function ReadU32(s: seq<Byte>, le: bool): (n: nat)
    requires |s| >= 4
    ensures n < 0x1_0000_0000
  {
    if le then FromDigits(s[0], s[1], s[2], s[3]) else FromDigits(s[3], s[2], s[1], s[0])
  }

  function WriteU32(n: nat, le: bool): (s: seq<Byte>)
    requires n < 0x1_0000_0000
    ensures |s| == 4
  {
    var a, b, c, d := n % 0x100, n / 0x100 % 0x100, n / 0x1_0000 % 0x100, n / 0x100_0000;
    if le then [a, b, c, d] else [d, c, b, a]
  }

  lemma DigitsOf(n: nat)
    requires n < 0x1_0000_0000
    ensures FromDigits(n % 0x100, n / 0x100 % 0x100, n / 0x1_0000 % 0x100, n / 0x100_0000) == n
  {
    var n1 := n / 0x100;
    var n2 := n1 / 0x100;
    assert n2 == n / 0x1_0000 && n2 / 0x100 == n / 0x100_0000;
    assert n == n1 * 0x100 + n % 0x100 && n1 == n2 * 0x100 + n1 % 0x100 && n2 == n2 / 0x100 * 0x100 + n2 % 0x100;
  }

  lemma U32RoundTrip(n: nat, rest: seq<Byte>, le: bool)
    requires n < 0x1_0000_0000
    ensures ReadU32(WriteU32(n, le) + rest, le) == n
  {
    hide FromDigits;
    DigitsOf(n);
    var w := WriteU32(n, le);
    var s := w + rest;
    assert s[0] == w[0] && s[1] == w[1] && s[2] == w[2] && s[3] == w[3];
  }

  /** Which end comes first: byte k of four counts 256^k, from the front or from the back. */
  lemma U32Order(a: Byte, b: Byte, c: Byte, d: Byte)
    ensures ReadU32([a, b, c, d], true) == ReadU32([d, c, b, a], false)
    ensures ReadU32([a, b, c, d], true) == 256 * (256 * (256 * d + c) + b) + a
  {}

  lemma ReadPrefix(s: seq<Byte>, t: seq<Byte>, le: bool)
    requires |s| >= 4
    ensures ReadU32(s + t, le) == ReadU32(s, le)
  {
    hide FromDigits;
  }

  datatype Parts = Parts(frames: seq<seq<Byte>>, rest: seq<Byte>)

  /** The first frame is complete. */
  predicate Complete(s: seq<Byte>, le: bool) {
    |s| >= 4 && |s| >= 4 + ReadU32(s, le)
  }

  /** Reference definition: the complete frames of a whole stream, and the incomplete tail. */
  function Split(s: seq<Byte>, le: bool): Parts
    decreases |s|
  {
    if !Complete(s, le) then Parts([], s)
    else
      var n := 4 + ReadU32(s, le);
      var later := Split(s[n..], le);
      Parts([s[4..n]] + later.frames, later.rest)
  }

  lemma SplitOpens(first: seq<Byte>, s: seq<Byte>, later: seq<Byte>, le: bool)
    requires Complete(s, le) && first == s[4..4 + ReadU32(s, le)] && later == s[4 + ReadU32(s, le)..]
    ensures Split(s, le) == Parts([first] + Split(later, le).frames, Split(later, le).rest)
  {
    hide ReadU32;
  }

  /** Splitting a longer stream continues from the tail of the shorter one. */
  lemma {:induction false} SplitAppend(s: seq<Byte>, t: seq<Byte>, le: bool)
    ensures Split(s + t, le) == Parts(Split(s, le).frames + Split(Split(s, le).rest + t, le).frames,
                                      Split(Split(s, le).rest + t, le).rest)
    decreases |s|
  {
    if Complete(s, le) {
      SplitAppendStep(s, t, le, s[4 + ReadU32(s, le)..]);
    }
  }

  lemma {:induction false} SplitAppendStep(s: seq<Byte>, t: seq<Byte>, le: bool, tail: seq<Byte>)
    requires Complete(s, le) && tail == s[4 + ReadU32(s, le)..]
    ensures Split(s + t, le) == Parts(Split(s, le).frames + Split(Split(s, le).rest + t, le).frames,
                                      Split(Split(s, le).rest + t, le).rest)
    decreases |s|, 0
  {
    hide ReadU32, Split;
    var n := 4 + ReadU32(s, le);
    var first := s[4..n];
    ReadPrefix(s, t, le);
    assert (s + t)[n..] == tail + t && (s + t)[4..n] == first;
    SplitOpens(first, s, tail, le);
    SplitOpens(first, s + t, tail + t, le);
    SplitAppend(tail, t, le);
    var later := Split(tail, le);
    var end := Split(later.rest + t, le);
    assert [first] + (later.frames + end.frames) == ([first] + later.frames) + end.frames;
  }

  lemma {:induction false} RestIncomplete(s: seq<Byte>, le: bool)
    ensures !Complete(Split(s, le).rest, le)
    decreases |s|
  {
    if Complete(s, le) {
      RestIncomplete(s[4 + ReadU32(s, le)..], le);
    }
  }

  /** The bytes that the frames take on the wire. */
  ghost function WireLength(frames: seq<seq<Byte>>): nat {
    if frames == [] then 0 else 4 + |frames[0]| + WireLength(frames[1..])
  }

  lemma {:induction false} WireLengthAppend(a: seq<seq<Byte>>, b: seq<seq<Byte>>)
    ensures WireLength(a + b) == WireLength(a) + WireLength(b)
  {
    if a == [] {
      assert a + b == b;
    } else {
      assert (a + b)[1..] == a[1..] + b;
      WireLengthAppend(a[1..], b);
    }
  }

  /** Splitting neither loses nor invents bytes. */
  lemma {:induction false} SplitConserves(s: seq<Byte>, le: bool)
    ensures WireLength(Split(s, le).frames) + |Split(s, le).rest| == |s|
    decreases |s|
  {
    if Complete(s, le) {
      var n := 4 + ReadU32(s, le);
      var later := Split(s[n..], le);
      SplitConserves(s[n..], le);
      assert ([s[4..n]] + later.frames)[1..] == later.frames;
    }
  }

  /** The wire form of a frame and of a list of frames. */
  function Encode(payload: seq<Byte>, le: bool): seq<Byte>
    requires |payload| < 0x1_0000_0000
  {
    WriteU32(|payload|, le) + payload
  }

  ghost predicate Encodable(frames: seq<seq<Byte>>) {
    forall i :: 0 <= i < |frames| ==> |frames[i]| < 0x1_0000_0000
  }

  function Wire(frames: seq<seq<Byte>>, le: bool): seq<Byte>
    requires Encodable(frames)
  {
    if frames == [] then [] else Encode(frames[0], le) + Wire(frames[1..], le)
  }

  /** Decoding undoes encoding. */
  lemma {:induction false} SplitOfWire(frames: seq<seq<Byte>>, le: bool)
    requires Encodable(frames)
    ensures Split(Wire(frames, le), le) == Parts(frames, [])
  {
    hide ReadU32, WriteU32;
    if frames != [] {
      var f, later := frames[0], Wire(frames[1..], le);
      var s := WriteU32(|f|, le) + f + later;
      assert Wire(frames, le) == WriteU32(|f|, le) + (f + later) == s;
      U32RoundTrip(|f|, f + later, le);
      assert s[4..4 + |f|] == f && s[4 + |f|..] == later;
      SplitOfWire(frames[1..], le);
      assert frames == [f] + frames[1..];
    }
  }

  // ----- Receiving in chunks -----

  function Concat(chunks: seq<seq<Byte>>): seq<Byte> {
    if chunks == [] then [] else chunks[0] + Concat(chunks[1..])
  }

  /** One data event: a buffer over the limit is thrown away with everything in it. */
  function Receive(carried: seq<Byte>, chunk: seq<Byte>, le: bool): Parts {
    if |carried| + |chunk| > PAYLOAD_MAX_LEN then Parts([], []) else Split(carried + chunk, le)
  }

  /** All data events: what was delivered, and what is carried at the end. */
  function ReceiveAll(carried: seq<Byte>, chunks: seq<seq<Byte>>, le: bool): Parts
    decreases |chunks|
  {
    if chunks == [] then Parts([], carried)
    else
      var now := Receive(carried, chunks[0], le);
      var later := ReceiveAll(now.rest, chunks[1..], le);
      Parts(now.frames + later.frames, later.rest)
  }

  /** The buffer never goes over the limit. */
  predicate NeverFull(carried: seq<Byte>, chunks: seq<seq<Byte>>, le: bool)
    decreases |chunks|
  {
    chunks == [] ||
    (|carried| + |chunks[0]| <= PAYLOAD_MAX_LEN
     && NeverFull(Receive(carried, chunks[0], le).rest, chunks[1..], le))
  }

  lemma {:induction false} ReceivesAll(carried: seq<Byte>, chunks: seq<seq<Byte>>, le: bool)
    requires !Complete(carried, le) && NeverFull(carried, chunks, le)
    ensures ReceiveAll(carried, chunks, le) == Split(carried + Concat(chunks), le)
    decreases |chunks|
  {
    if chunks == [] {
      assert carried + [] == carried;
    } else {
      var s, later := carried + chunks[0], Concat(chunks[1..]);
      RestIncomplete(s, le);
      ReceivesAll(Split(s, le).rest, chunks[1..], le);
      assert carried + Concat(chunks) == s + later;
      SplitAppend(s, later, le);
    }
  }

  /** Bytes delivered and carried never exceed bytes received, and fall short as soon as a buffer is thrown away. */
  lemma {:induction false} ReceiveConserves(carried: seq<Byte>, chunks: seq<seq<Byte>>, le: bool)
    ensures var r := ReceiveAll(carried, chunks, le);
            && WireLength(r.frames) + |r.rest| <= |carried| + |Concat(chunks)|
            && (!NeverFull(carried, chunks, le) ==> WireLength(r.frames) + |r.rest| < |carried| + |Concat(chunks)|)
    decreases |chunks|
  {
    if chunks != [] {
      var now := Receive(carried, chunks[0], le);
      ReceiveConserves(now.rest, chunks[1..], le);
      WireLengthAppend(now.frames, ReceiveAll(now.rest, chunks[1..], le).frames);
      if |carried| + |chunks[0]| <= PAYLOAD_MAX_LEN {
        SplitConserves(carried + chunks[0], le);
      }
    }
  }

  /**
   Chunk independence, exactly: what is delivered and carried after any sequence of chunks is the split of the
   concatenated stream if and only if the buffer never goes over the limit.
   */
  lemma ChunkIndependence(chunks: seq<seq<Byte>>, le: bool)
    ensures ReceiveAll([], chunks, le) == Split(Concat(chunks), le) <==> NeverFull([], chunks, le)
  {
    assert [] + Concat(chunks) == Concat(chunks);
    if NeverFull([], chunks, le) {
      ReceivesAll([], chunks, le);
    } else {
      ReceiveConserves([], chunks, le);
      SplitConserves(Concat(chunks), le);
    }
  }

  lemma {:induction false} SplitBounded(s: seq<Byte>, le: bool)
    ensures forall f <- Split(s, le).frames :: 4 + |f| <= |s|
    decreases |s|
  {
    if Complete(s, le) {
      SplitBounded(s[4 + ReadU32(s, le)..], le);
    }
  }

  /** No payload of more than PAYLOAD_MAX_LEN - 4 bytes is ever delivered, however the stream is cut. */
  lemma {:induction false} DeliveredBounded(carried: seq<Byte>, chunks: seq<seq<Byte>>, le: bool)
    ensures forall f <- ReceiveAll(carried, chunks, le).frames :: |f| <= PAYLOAD_MAX_LEN - 4
    decreases |chunks|
  {
    if chunks != [] {
      DeliveredBounded(Receive(carried, chunks[0], le).rest, chunks[1..], le);
      if |carried| + |chunks[0]| <= PAYLOAD_MAX_LEN {
        SplitBounded(carried + chunks[0], le);
      }
    }
  }

  lemma {:induction false} CarriedBounded(carried: seq<Byte>, chunks: seq<seq<Byte>>, le: bool)
    requires |carried| <= PAYLOAD_MAX_LEN
    ensures |ReceiveAll(carried, chunks, le).rest| <= PAYLOAD_MAX_LEN
    decreases |chunks|
  {
    if chunks != [] {
      if |carried| + |chunks[0]| <= PAYLOAD_MAX_LEN {
        SplitConserves(carried + chunks[0], le);
      }
      CarriedBounded(Receive(carried, chunks[0], le).rest, chunks[1..], le);
    }
  }

  /** A frame of the stream with a longer payload, or a longer tail, makes the buffer overflow however it is cut. */
  lemma TooLongOverflows(chunks: seq<seq<Byte>>, le: bool)
    requires var parts := Split(Concat(chunks), le);
             |parts.rest| > PAYLOAD_MAX_LEN || exists f <- parts.frames :: |f| > PAYLOAD_MAX_LEN - 4
    ensures !NeverFull([], chunks, le)
  {
    hide Split;
    ChunkIndependence(chunks, le);
    DeliveredBounded([], chunks, le);
    CarriedBounded([], chunks, le);
  }

  /** The limit itself: a stream of up to 4194304 bytes never overflows, and a single longer chunk always does. */
  lemma {:induction false} LimitIs(carried: seq<Byte>, chunks: seq<seq<Byte>>, le: bool)
    ensures |carried| + |Concat(chunks)| <= 4194304 ==> NeverFull(carried, chunks, le)
    ensures |chunks| == 1 ==> (NeverFull(carried, chunks, le) <==> |carried| + |chunks[0]| <= 4194304)
    decreases |chunks|
  {
    if chunks != [] && |carried| + |chunks[0]| <= 4194304 {
      SplitConserves(carried + chunks[0], le);
      LimitIs(Receive(carried, chunks[0], le).rest, chunks[1..], le);
    }
  }

  /** Frames arrive as they were sent if and only if the buffer never goes over the limit. */
  lemma FramesArrive(frames: seq<seq<Byte>>, chunks: seq<seq<Byte>>, le: bool)
    requires Encodable(frames) && Concat(chunks) == Wire(frames, le)
    ensures ReceiveAll([], chunks, le) == Parts(frames, []) <==> NeverFull([], chunks, le)
  {
    hide Split, ReceiveAll, NeverFull, Wire, Concat;
    ChunkIndependence(chunks, le);
    SplitOfWire(frames, le);
  }

  // ----- The receiving loop -----

  /** The stream has been split up to msgStart, into the frames so far. */
  ghost predicate SplitUpTo(whole: seq<Byte>, msgStart: nat, frames: seq<seq<Byte>>, le: bool) {
    msgStart <= |whole| &&
    var later := Split(whole[msgStart..], le);
    Split(whole, le) == Parts(frames + later.frames, later.rest)
  }

  lemma SplitStarts(whole: seq<Byte>, le: bool)
    ensures SplitUpTo(whole, 0, [], le)
  {
    assert whole[0..] == whole;
  }

  lemma SplitStep(whole: seq<Byte>, msgStart: nat, frames: seq<seq<Byte>>, le: bool)
    requires SplitUpTo(whole, msgStart, frames, le) && Complete(whole[msgStart..], le)
    ensures var n := msgStart + 4 + ReadU32(whole[msgStart..], le);
            n <= |whole| && SplitUpTo(whole, n, frames + [whole[msgStart + 4..n]], le)
  {
    hide ReadU32;
    var s := whole[msgStart..];
    var m := 4 + ReadU32(s, le);
    assert s[m..] == whole[msgStart + m..] && s[4..m] == whole[msgStart + 4..msgStart + m];
    var later := Split(s[m..], le);
    assert frames + ([s[4..m]] + later.frames) == (frames + [s[4..m]]) + later.frames;
  }

  lemma SplitDone(whole: seq<Byte>, msgStart: nat, frames: seq<seq<Byte>>, le: bool)
    requires SplitUpTo(whole, msgStart, frames, le) && !Complete(whole[msgStart..], le)
    ensures Split(whole, le) == Parts(frames, whole[msgStart..])
  {}
}
