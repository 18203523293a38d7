/** The one-shot decoder: what a whole byte stream after the handshake means, read frame by frame. */
module Decoder {
  import opened Bytes
  import opened FrameFormat
  import opened FrameHeaders
  import opened Controls
  import opened Sequences
  import NetworkOrder
  import Utf8

  /** The effects of a stream, in order. */
  datatype Outcome =
    | Deliver(isBinary: bool, payload: seq<byte>)
    | Send(reply: seq<byte>)
    | Farewell(reply: seq<byte>)
    | Cancel(code: nat)

  /** The message being received: all of its payload so far, and the part of it that is read as text. */
  datatype Message = Message(open: bool, payload: seq<byte>, text: seq<byte>)

  const IDLE := Message(false, [], [])

  /** A frame either ends the connection or leads on to the next one. */
  datatype Step = Stop(last: Outcome) | Go(outcomes: seq<Outcome>, message: Message)

  function FrameSize(s: seq<byte>): (n: nat)
    requires Whole(s)
    ensures n >= 2
  {
    HeaderSize(s[1]) + PayloadLength(s)
  }

  /** A whole frame is at the front. */
  ghost predicate Complete(s: seq<byte>) {
    Whole(s) && |s| >= FrameSize(s)
  }

  function Payload(f: seq<byte>): (raw: seq<byte>)
    requires Whole(f) && |f| >= FrameSize(f)
    ensures |raw| == PayloadLength(f)
  {
    f[HeaderSize(f[1])..FrameSize(f)]
  }

  function HeadCode(m: Message, s: seq<byte>): nat
    requires Whole(s)
  {
    if !Defined(s[0], 0) then PROTOCOL_ERROR else Verdict(ParseHead(s), !m.open)
  }

  /** The code for a header: which ones are refused, and how. */
  lemma HeadCodeIs(m: Message, s: seq<byte>)
    requires Whole(s)
    ensures HeadCode(m, s) ==
            if s[0] / 16 % 8 != 0 || s[0] % 16 !in {0, 1, 2, 8, 9, 10} then 1002
            else if s[0] % 16 in {8, 9, 10} then
              if s[0] < 128 then 1007 else if PayloadLength(s) > 125 then 1002 else 0
            else if m.open == (s[0] % 16 == 0) then 0
            else 1002
  {
    FirstByteFields(s[0]);
    hide Fin, Opcode, IsControl, PayloadLength, MaskingKey;
  }

  /** The message with the payload of another frame. */
  function Grown(m: Message, fin: bool, opcode: byte, plain: seq<byte>): Message {
    Message(!fin, m.payload + plain, m.text + if opcode == BINARY then [] else plain)
  }

  /** What a data frame with the plain data `plain` does. */
  ghost function DataStep(m: Message, fin: bool, opcode: byte, plain: seq<byte>): Step {
    var next := Grown(m, fin, opcode, plain);
    if fin then
      if Utf8.WellFormed(next.text) then Go([Deliver(opcode == BINARY, next.payload)], IDLE)
      else Stop(Cancel(INCONSISTENT_DATA))
    else if Utf8.Extendable(next.text) then Go([], next)
    else Stop(Cancel(INCONSISTENT_DATA))
  }

  /** What one whole frame does. */
  ghost function FrameStep(m: Message, f: seq<byte>): Step
    requires Complete(f)
  {
    var head, raw := ParseHead(f), Payload(f);
    if HeadCode(m, f) != 0 then Stop(Cancel(HeadCode(m, f)))
    else if IsControl(head.opcode) then
      match Response(f[0], f[1], head.key, raw)
      case Reject(code) => Stop(Cancel(code))
      case Goodbye(reply) => Stop(Farewell(reply))
      case Reply(reply) => Go([Send(reply)], m)
      case Silence => Go([], m)
    else DataStep(m, head.fin, head.opcode, Unmask(raw, head.key, 0))
  }

  lemma CutInRange(n: nat, size: nat)
    requires size > 0
    ensures 0 <= n / size * size <= n
  {
    assert n == n / size * size + n % size;
  }

  /** How much of the payload of a frame that is cut short is read: up to the last chunk boundary. */
  function ReadableCut(consumed: nat, available: nat, chunkSize: nat): (n: nat)
    requires chunkSize > 0
    ensures n <= available
  {
    var boundary := (consumed + available) / chunkSize * chunkSize;
    CutInRange(consumed + available, chunkSize);
    if boundary <= consumed then 0 else boundary - consumed
  }

  /** What the beginning of a frame does already: a bad header is refused at once, and text is checked chunk by
      chunk. */
  ghost function Partial(m: Message, s: seq<byte>, chunkSize: nat): seq<Outcome>
    requires !Complete(s) && chunkSize > 0
  {
    if |s| < 2 then []
    else if !Defined(s[0], 0) then [Cancel(PROTOCOL_ERROR)]
    else if !Whole(s) then []
    else if HeadCode(m, s) != 0 then [Cancel(HeadCode(m, s))]
    else
      var head, available := ParseHead(s), s[HeaderSize(s[1])..];
      if IsControl(head.opcode) || head.opcode == BINARY then []
      else
        var n := ReadableCut(|m.payload|, |available|, chunkSize);
        if Utf8.Extendable(m.text + Unmask(available[..n], head.key, 0)) then []
        else [Cancel(INCONSISTENT_DATA)]
  }

  /** A whole frame at the front is a frame by itself, with the same header and payload. */
  lemma FrontFrame(s: seq<byte>)
    requires Complete(s)
    ensures var f := s[..FrameSize(s)];
            Complete(f) && FrameSize(f) == FrameSize(s) && ParseHead(f) == ParseHead(s) && Payload(f) == Payload(s)
  {
    var f := s[..FrameSize(s)];
    assert Whole(f);
    assert s == f + s[FrameSize(s)..];
    ParsePrefix(f, s[FrameSize(s)..]);
  }

  ghost function Decode(m: Message, s: seq<byte>, chunkSize: nat): seq<Outcome>
    requires chunkSize > 0
    decreases |s|
  {
    if !Complete(s) then Partial(m, s, chunkSize)
    else
      FrontFrame(s);
      var step := FrameStep(m, s[..FrameSize(s)]);
      if step.Stop? then [step.last]
      else step.outcomes + Decode(step.message, s[FrameSize(s)..], chunkSize)
  }

  /** Exactly one frame. */
  ghost predicate Frame(f: seq<byte>) {
    Complete(f) && |f| == FrameSize(f)
  }

  /** Decoding goes on behind a frame with the message the frame leaves. */
  lemma DecodeFrame(m: Message, f: seq<byte>, rest: seq<byte>, chunkSize: nat)
    requires Frame(f) && chunkSize > 0
    ensures Complete(f + rest) && FrameSize(f + rest) == |f|
    ensures Decode(m, f + rest, chunkSize) ==
            var step := FrameStep(m, f);
            if step.Stop? then [step.last] else step.outcomes + Decode(step.message, rest, chunkSize)
  {
    ParsePrefix(f, rest);
    assert (f + rest)[..|f|] == f && (f + rest)[|f|..] == rest;
  }

  // ---------------------------------------------------------------------------
  // Chunks cannot be observed
  // ---------------------------------------------------------------------------

  /** The stream ends where a frame ends. */
  ghost predicate Frames(s: seq<byte>)
    decreases |s|
  {
    s == [] || (Complete(s) && Frames(s[FrameSize(s)..]))
  }

  /** On a stream of whole frames the chunk size has no influence. */
  lemma {:induction false} ChunkSizeUnobservable(m: Message, s: seq<byte>, a: nat, b: nat)
    requires Frames(s) && a > 0 && b > 0
    ensures Decode(m, s, a) == Decode(m, s, b)
    decreases |s|
  {
    if s == [] {
    } else {
      FrontFrame(s);
      var step := FrameStep(m, s[..FrameSize(s)]);
      if step.Go? {
        ChunkSizeUnobservable(step.message, s[FrameSize(s)..], a, b);
      }
    }
  }

  // ---------------------------------------------------------------------------
  // Pings and pongs cannot be observed in the data
  // ---------------------------------------------------------------------------

  /** The stream without the pings and pongs that are accepted on the way. */
  ghost function Erased(m: Message, s: seq<byte>): seq<byte>
    decreases |s|
  {
    if !Complete(s) then s
    else
      FrontFrame(s);
      var n := FrameSize(s);
      var step := FrameStep(m, s[..n]);
      if step.Stop? then s
      else if IsControl(Opcode(s[0])) then Erased(step.message, s[n..])
      else s[..n] + Erased(step.message, s[n..])
  }

  /** The outcomes without the answers to pings. */
  function WithoutPongs(outcomes: seq<Outcome>): seq<Outcome> {
    if outcomes == [] then []
    else (if outcomes[0].Send? then [] else [outcomes[0]]) + WithoutPongs(outcomes[1..])
  }

  lemma {:induction false} WithoutPongsConcat(a: seq<Outcome>, b: seq<Outcome>)
    ensures WithoutPongs(a + b) == WithoutPongs(a) + WithoutPongs(b)
  {
    if a == [] {
      assert a + b == b;
    } else {
      assert (a + b)[1..] == a[1..] + b;
      WithoutPongsConcat(a[1..], b);
    }
  }

  lemma ControlStep(m: Message, f: seq<byte>)
    requires Complete(f) && FrameStep(m, f).Go?
    ensures if IsControl(Opcode(f[0])) then FrameStep(m, f).message == m && WithoutPongs(FrameStep(m, f).outcomes) == []
            else WithoutPongs(FrameStep(m, f).outcomes) == FrameStep(m, f).outcomes
  {}

  /** Erasing the accepted pings and pongs, wherever they stand, takes away the answers to the pings and nothing else:
      the same messages are delivered, and the connection ends in the same way. */
  lemma {:induction false} ControlFramesUnobservable(m: Message, s: seq<byte>, chunkSize: nat)
    requires chunkSize > 0
    ensures Decode(m, Erased(m, s), chunkSize) == WithoutPongs(Decode(m, s, chunkSize))
    decreases |s|
  {
    if !Complete(s) {
    } else {
      FrontFrame(s);
      var n := FrameSize(s);
      var f, rest := s[..n], s[n..];
      assert f[0] == s[0];
      var step := FrameStep(m, f);
      if step.Go? {
        ControlFramesUnobservable(step.message, rest, chunkSize);
        ControlStep(m, f);
        WithoutPongsConcat(step.outcomes, Decode(step.message, rest, chunkSize));
        if !IsControl(Opcode(s[0])) {
          DecodeFrame(m, f, Erased(step.message, rest), chunkSize);
        }
      } else {
        assert [step.last][1..] == [];
      }
    }
  }

  // ---------------------------------------------------------------------------
  // Where the answers fall short
  // ---------------------------------------------------------------------------

  lemma NothingLeft(chunkSize: nat)
    requires chunkSize > 0
    ensures Decode(IDLE, [], chunkSize) == []
  {}

  lemma NoLength()
    ensures NetworkOrder.BigEndian([0x00, 0x00]) == 0
  {
    NetworkOrder.Snoc([], 0x00);
    NetworkOrder.Snoc([0x00], 0x00);
    assert [] + [0x00] == [0x00] && [0x00] + [0x00] == [0x00, 0x00];
    assert NetworkOrder.BigEndian([]) == 0;
    assert (0x00 as byte) as int == 0;
  }

  lemma LongPingHead(ping: seq<byte>)
    requires ping == [0x89, 0x7E, 0x00, 0x00]
    ensures Frame(ping) && Payload(ping) == [] && ParseHead(ping) == Head(true, PING, ZERO_KEY, 0)
    ensures HeadCode(IDLE, ping) == 0 && !Whole([0x8A, 0x7E])
  {
    assert ping[2..4] == [0x00, 0x00];
    NoLength();
  }

  lemma LongPingStep(ping: seq<byte>)
    requires ping == [0x89, 0x7E, 0x00, 0x00]
    requires Frame(ping) && Payload(ping) == [] && ParseHead(ping) == Head(true, PING, ZERO_KEY, 0)
    requires HeadCode(IDLE, ping) == 0
    ensures FrameStep(IDLE, ping) == Go([Send([0x8A, 0x7E])], IDLE)
  {
    hide HeadCode, Whole, PayloadLength;
    PingResponse(0x89, 0x7E, ZERO_KEY, []);
    assert AsPong(0x89) == 0x8A && Bare(0x7E) == 0x7E && Opcode(0x89) == PING;
    UnmaskZero([], 0);
    var answer: seq<byte> := [0x8A, 0x7E];
    Units(answer);
    assert ping[0] == 0x89 && ping[1] == 0x7E;
    hide Response, Unmask, AsPong, Bare;
  }

  /** An empty ping whose length is in an extended form is accepted, and answered with two bytes that announce an
      extended length and stop: they are not a header. */
  lemma LongPing(chunkSize: nat)
    requires chunkSize > 0
    ensures var ping: seq<byte>, answer: seq<byte> := [0x89, 0x7E, 0x00, 0x00], [0x8A, 0x7E];
            Frame(ping) && Decode(IDLE, ping, chunkSize) == [Send(answer)] && !Whole(answer)
  {
    var ping: seq<byte> := [0x89, 0x7E, 0x00, 0x00];
    LongPingHead(ping);
    LongPingStep(ping);
    hide FrameStep, HeadCode, Whole;
    DecodeFrame(IDLE, ping, [], chunkSize);
    NothingLeft(chunkSize);
    Units(ping);
    Units([Send([0x8A, 0x7E])]);
  }
}
