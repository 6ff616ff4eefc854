/**
 * TCP framing of packages/client/src/core/connection.ts: a 16-bit type, a 32-bit
 * length and the payload, both numbers big-endian, over a stream cut into any chunks.
 */
module Framing {
  import opened Wrappers

  type Octet = n: nat | n < 256

  datatype Message = Message(kind: nat, payload: seq<Octet>)

  /** What fits the header; writing other numbers throws. */
  predicate Fits(m: Message) {
    m.kind < 0x1_0000 && |m.payload| < 0x1_0000_0000
  }

  function Be16(n: nat): (s: seq<Octet>)
    requires n < 0x1_0000
    ensures |s| == 2
  {
    [n / 256, n % 256]
  }

  function ReadBe16(s: seq<Octet>): (n: nat)
    requires |s| == 2
    ensures n < 0x1_0000
  {
    256 * (s[0] as int) + s[1] as int
  }

  function Be32(n: nat): (s: seq<Octet>)
    requires n < 0x1_0000_0000
    ensures |s| == 4
  {
    Be16(n / 0x1_0000) + Be16(n % 0x1_0000)
  }

  function ReadBe32(s: seq<Octet>): (n: nat)
    requires |s| == 4
    ensures n < 0x1_0000_0000
  {
    0x1_0000 * ReadBe16(s[..2]) + ReadBe16(s[2..])
  }

  lemma ReadBe32Writes(n: nat)
    requires n < 0x1_0000_0000
    ensures ReadBe32(Be32(n)) == n
  {
    var hi, lo := n / 0x1_0000, n % 0x1_0000;
    assert Be32(n)[..2] == Be16(hi) && Be32(n)[2..] == Be16(lo);
    assert ReadBe16(Be16(hi)) == hi && ReadBe16(Be16(lo)) == lo;
  }

  lemma Be32OfRead(s: seq<Octet>)
    requires |s| == 4
    ensures Be32(ReadBe32(s)) == s
  {
    var hi, lo := ReadBe16(s[..2]), ReadBe16(s[2..]);
    assert ReadBe32(s) / 0x1_0000 == hi && ReadBe32(s) % 0x1_0000 == lo;
    assert Be16(hi) == s[..2] && Be16(lo) == s[2..];
  }

  function WrapMessage(m: Message): seq<Octet>
    requires Fits(m)
  {
    Be16(m.kind) + Be32(|m.payload|) + m.payload
  }

  /** The length that the header at the front of a buffer announces, header included. */
  function FrameLength(buffer: seq<Octet>): nat
    requires |buffer| >= 6
  {
    6 + ReadBe32(buffer[2..6])
  }

  predicate HasFrame(buffer: seq<Octet>) {
    |buffer| >= 6 && |buffer| >= FrameLength(buffer)
  }

  function FirstMessage(buffer: seq<Octet>): Message
    requires HasFrame(buffer)
  {
    Message(ReadBe16(buffer[..2]), buffer[6..FrameLength(buffer)])
  }

  datatype Drained = Drained(messages: seq<Message>, rest: seq<Octet>)

  /** All complete messages at the front of a buffer, and what is left of it. */
  function Drain(buffer: seq<Octet>): Drained
    decreases |buffer|
  {
    if !HasFrame(buffer) then Drained([], buffer) else
      var d := Drain(buffer[FrameLength(buffer)..]);
      Drained([FirstMessage(buffer)] + d.messages, d.rest)
  }

  class ConnectionManager {
    var receiveBuffer: seq<Octet>
    ghost var routed: seq<Message>  // the calls of `routeMessage`

    constructor ()
      ensures receiveBuffer == [] && routed == []
    {
      receiveBuffer, routed := [], [];
    }

    method RouteMessage(m: Message)
      modifies this`routed
      ensures routed == old(routed) + [m]
    {
      routed := routed + [m];
    }

    method HandleTCPMessage(data: seq<Octet>)
      modifies this
      ensures var d := Drain(old(receiveBuffer) + data);
        routed == old(routed) + d.messages && receiveBuffer == d.rest
    {
      receiveBuffer := receiveBuffer + data;
      ghost var whole := Drain(receiveBuffer);
      while |receiveBuffer| >= 6
        invariant old(routed) + whole.messages == routed + Drain(receiveBuffer).messages
        invariant whole.rest == Drain(receiveBuffer).rest
        decreases |receiveBuffer|
      {
        var kind := ReadBe16(receiveBuffer[..2]);
        var length := ReadBe32(receiveBuffer[2..6]);
        if |receiveBuffer| < 6 + length {
          break;
        }
        var payload := receiveBuffer[6..6 + length];
        ghost var later := Drain(receiveBuffer[6 + length..]).messages;
        assert (routed + [Message(kind, payload)]) + later == routed + ([Message(kind, payload)] + later);
        RouteMessage(Message(kind, payload));
        receiveBuffer := receiveBuffer[6 + length..];
      }
    }
  }

  // ----- reassembly does not depend on the chunks -----

  /** The header is the kind in two bytes and the payload's length in four, high bytes first. */
  lemma WrappedBytes(m: Message)
    requires Fits(m)
    ensures var w := WrapMessage(m);
      && |w| == 6 + |m.payload| && w[6..] == m.payload
      && m.kind == 256 * (w[0] as int) + w[1] as int
      && |m.payload| == 256 * (256 * (256 * (w[2] as int) + w[3] as int) + w[4] as int) + w[5] as int
  {
    ReadBe32Writes(|m.payload|);
    var length := Be32(|m.payload|);
    assert length[..2] == [length[0], length[1]] && length[2..] == [length[2], length[3]];
  }

  lemma FrameInFront(a: seq<Octet>, b: seq<Octet>)
    requires HasFrame(a)
    ensures HasFrame(a + b) && FrameLength(a + b) == FrameLength(a) && FirstMessage(a + b) == FirstMessage(a)
    ensures (a + b)[FrameLength(a)..] == a[FrameLength(a)..] + b
  {
    assert (a + b)[2..6] == a[2..6] && (a + b)[..2] == a[..2];
    assert (a + b)[6..FrameLength(a)] == a[6..FrameLength(a)];
  }

  /** Draining after each part is draining the whole. */
  lemma {:induction false} DrainInParts(a: seq<Octet>, b: seq<Octet>)
    ensures var first := Drain(a);
      var second := Drain(first.rest + b);
      Drain(a + b) == Drained(first.messages + second.messages, second.rest)
    decreases |a|
  {
    if HasFrame(a) {
      FrameInFront(a, b);
      var rest := a[FrameLength(a)..];
      DrainInParts(rest, b);
      var second := Drain(Drain(rest).rest + b);
      OneInFront(FirstMessage(a), Drain(rest).messages, second.messages);
    }
  }

  lemma OneInFront(m: Message, first: seq<Message>, second: seq<Message>)
    ensures [m] + (first + second) == ([m] + first) + second
  {
  }

  /** The state after a sequence of chunks. */
  function Feed(chunks: seq<seq<Octet>>): Drained {
    if chunks == [] then Drained([], []) else
      var before := Feed(chunks[..|chunks| - 1]);
      var now := Drain(before.rest + chunks[|chunks| - 1]);
      Drained(before.messages + now.messages, now.rest)
  }

  function Stream(chunks: seq<seq<Octet>>): seq<Octet> {
    if chunks == [] then [] else Stream(chunks[..|chunks| - 1]) + chunks[|chunks| - 1]
  }

  lemma {:induction false} FeedIsDrain(chunks: seq<seq<Octet>>)
    ensures Feed(chunks) == Drain(Stream(chunks))
  {
    if chunks != [] {
      FeedIsDrain(chunks[..|chunks| - 1]);
      DrainInParts(Stream(chunks[..|chunks| - 1]), chunks[|chunks| - 1]);
    }
  }

  // ----- framing is undone -----

  function WrapAll(messages: seq<Message>): seq<Octet>
    requires forall m <- messages :: Fits(m)
  {
    if messages == [] then [] else WrapMessage(messages[0]) + WrapAll(messages[1..])
  }

  lemma FrameOfWrap(m: Message, rest: seq<Octet>)
    requires Fits(m)
    ensures var s := WrapMessage(m) + rest;
      HasFrame(s) && FirstMessage(s) == m && s[FrameLength(s)..] == rest
  {
    var s := WrapMessage(m) + rest;
    assert s[..2] == Be16(m.kind) && s[2..6] == Be32(|m.payload|);
    ReadBe32Writes(|m.payload|);
    assert s[6..6 + |m.payload|] == m.payload;
  }

  lemma WrapAllSplits(messages: seq<Message>, tail: seq<Octet>)
    requires messages != [] && forall m <- messages :: Fits(m)
    ensures WrapAll(messages) + tail == WrapMessage(messages[0]) + (WrapAll(messages[1..]) + tail)
  {
  }

  lemma DrainOfOneMore(m: Message, rest: seq<Octet>)
    requires Fits(m)
    ensures Drain(WrapMessage(m) + rest) == Drained([m] + Drain(rest).messages, Drain(rest).rest)
  {
    FrameOfWrap(m, rest);
  }

  lemma {:induction false} DrainOfWrapped(messages: seq<Message>, tail: seq<Octet>)
    requires forall m <- messages :: Fits(m)
    ensures Drain(WrapAll(messages) + tail) == Drained(messages + Drain(tail).messages, Drain(tail).rest)
    decreases |messages|
  {
    var more := Drain(tail).messages;
    if messages == [] {
      assert WrapAll(messages) + tail == tail && messages + more == more;
    } else {
      DrainOfWrapped(messages[1..], tail);
      DrainOfOneMore(messages[0], WrapAll(messages[1..]) + tail);
      WrapAllSplits(messages, tail);
      Reattach(messages, more);
    }
  }

  lemma Reattach<T>(s: seq<T>, t: seq<T>)
    requires s != []
    ensures [s[0]] + (s[1..] + t) == s + t
  {
  }

  /** However the stream is cut, exactly the wrapped messages arrive, in order, and the tail stays. */
  lemma ReassemblyIgnoresChunks(messages: seq<Message>, tail: seq<Octet>, chunks: seq<seq<Octet>>)
    requires forall m <- messages :: Fits(m)
    requires !HasFrame(tail) && Stream(chunks) == WrapAll(messages) + tail
    ensures Feed(chunks) == Drained(messages, tail)
  {
    FeedIsDrain(chunks);
    DrainOfWrapped(messages, tail);
  }

  lemma WrapOfFirst(buffer: seq<Octet>)
    requires HasFrame(buffer)
    ensures Fits(FirstMessage(buffer)) && WrapMessage(FirstMessage(buffer)) == buffer[..FrameLength(buffer)]
  {
    var m := FirstMessage(buffer);
    Be32OfRead(buffer[2..6]);
    assert Be16(m.kind) == buffer[..2];
    assert buffer[..FrameLength(buffer)] == buffer[..2] + buffer[2..6] + buffer[6..FrameLength(buffer)];
  }

  ghost predicate AllFit(messages: seq<Message>) {
    forall m <- messages :: Fits(m)
  }

  lemma WrapOneMore(m: Message, messages: seq<Message>, tail: seq<Octet>)
    requires Fits(m) && AllFit(messages)
    ensures AllFit([m] + messages)
    ensures WrapAll([m] + messages) + tail == WrapMessage(m) + (WrapAll(messages) + tail)
  {
    assert ([m] + messages)[1..] == messages;
  }

  lemma SplitAt(s: seq<Octet>, n: nat)
    requires n <= |s|
    ensures s[..n] + s[n..] == s
  {
  }

  /** No byte is lost or made up: the messages wrapped again, and the rest, are the stream. */
  lemma {:induction false} DrainLosesNothing(buffer: seq<Octet>)
    ensures var d := Drain(buffer);
      AllFit(d.messages) && WrapAll(d.messages) + d.rest == buffer && !HasFrame(d.rest)
    decreases |buffer|
  {
    if HasFrame(buffer) {
      var n := FrameLength(buffer);
      var later := Drain(buffer[n..]);
      DrainLosesNothing(buffer[n..]);
      WrapOfFirst(buffer);
      WrapOneMore(FirstMessage(buffer), later.messages, later.rest);
      SplitAt(buffer, n);
    }
  }
}
