/** What the session does to the outside: the parts a message is handed over in, and what goes to the socket. */
module Delivery {
  import opened Bytes
  import opened Decoder
  import opened FrameFormat
  import opened NetworkOrder
  import opened Sequences

  datatype Event =
    | Opened(isBinary: bool)
    | More(part: seq<byte>)
    | Last(part: seq<byte>)
    | Closed
    | Written(bytes: seq<byte>)
    | WrittenLast(bytes: seq<byte>)
    | Cancelled(code: nat, bytes: seq<byte>)

  // ---------------------------------------------------------------------------
  // Parts
  // ---------------------------------------------------------------------------

  /** The data cut into parts of one size, the last one as long as what is left. */
  function Split<T>(data: seq<T>, size: nat): (parts: seq<seq<T>>)
    requires size > 0
    ensures parts != []
    decreases |data|
  {
    if |data| <= size then [data] else [data[..size]] + Split(data[size..], size)
  }

  function Join<T>(parts: seq<seq<T>>): seq<T> {
    if parts == [] then [] else parts[0] + Join(parts[1..])
  }

  /** All parts but the last have the full size, and the last is not empty. */
  predicate Tight<T>(parts: seq<seq<T>>, size: nat) {
    && parts != []
    && (forall i :: 0 <= i < |parts| - 1 ==> |parts[i]| == size)
    && 0 < |parts[|parts| - 1]| <= size
  }

  /** Splitting is the only way to cut non-empty data tightly. */
  lemma {:induction false} SplitIsTight<T>(data: seq<T>, size: nat)
    requires size > 0
    ensures Join(Split(data, size)) == data
    ensures data != [] ==> Tight(Split(data, size), size)
    ensures data == [] ==> Split(data, size) == [[]]
    decreases |data|
  {
    if |data| <= size {
      assert [data][1..] == [];
    } else {
      SplitIsTight(data[size..], size);
      assert Split(data, size)[1..] == Split(data[size..], size);
    }
  }

  lemma {:induction false} JoinNonempty<T>(parts: seq<seq<T>>)
    requires parts != [] && |parts[|parts| - 1]| > 0
    ensures |Join(parts)| > 0
  {
    if |parts| == 1 {
    } else {
      JoinNonempty(parts[1..]);
    }
  }

  lemma {:induction false} TightIsSplit<T>(parts: seq<seq<T>>, size: nat)
    requires size > 0 && Tight(parts, size)
    ensures Split(Join(parts), size) == parts
    decreases |parts|
  {
    if |parts| == 1 {
      assert Join(parts[1..]) == [];
      assert Join(parts) == parts[0];
    } else {
      var rest := parts[1..];
      assert Tight(rest, size);
      TightIsSplit(rest, size);
      assert |rest[|rest| - 1]| > 0;
      JoinNonempty(rest);
      assert Join(parts)[..size] == parts[0] && Join(parts)[size..] == Join(rest);
    }
  }

  lemma {:induction false} JoinLast<T>(parts: seq<seq<T>>, part: seq<T>)
    ensures Join(parts + [part]) == Join(parts) + part
  {
    if parts == [] {
      assert [part][1..] == [];
    } else {
      assert (parts + [part])[1..] == parts[1..] + [part];
      JoinLast(parts[1..], part);
    }
  }

  // ---------------------------------------------------------------------------
  // Outcomes as events
  // ---------------------------------------------------------------------------

  /** The parts of a message; the last one is marked. */
  function PartEvents(parts: seq<seq<byte>>): seq<Event>
    requires parts != []
  {
    if |parts| == 1 then [Last(parts[0])] else [More(parts[0])] + PartEvents(parts[1..])
  }

  /** What is written when a connection is cancelled: the status code stands behind a close frame without payload. */
  function CancelBytes(code: nat): (bytes: seq<byte>)
    ensures |bytes| == 4
  {
    [0x88, 0x00, Digit(code / 256), Digit(code)]
  }

  lemma CancelBytesAre(code: nat)
    ensures CancelBytes(code) == [0x88, 0x00, Digit(code / 256), Digit(code)]
  {}

  lemma EmptyClose(high: byte, low: byte)
    ensures var bytes := [0x88, 0x00, high, low];
            && Complete(bytes) && FrameSize(bytes) == 2 && Payload(bytes) == []
            && ParseHead(bytes) == Head(true, CLOSE, ZERO_KEY, 0)
  {}

  lemma SameCode(code: nat, high: int, low: int, n0: int, n1: int, n2: int)
    requires code < 0x1_0000 && high == code / 256 % 256 && low == code % 256
    requires n0 == 0 && n1 == n0 * 256 + high && n2 == n1 * 256 + low
    ensures n2 == code
  {}

  lemma TwoDigits(code: nat)
    requires code < 0x1_0000
    ensures BigEndian([Digit(code / 256), Digit(code)]) == code
  {
    hide *;
    var high, low := Digit(code / 256), Digit(code);
    DigitValue(code / 256);
    DigitValue(code);
    Snoc([], high);
    Snoc([high], low);
    assert [] + [high] == [high] && [high] + [low] == [high, low];
    SameCode(code, high as int, low as int, BigEndian([]), BigEndian([high]), BigEndian([high, low]));
  }

  /** So the frame that is written never carries the code, whatever the code is. */
  lemma CancelFrameIsEmpty(code: nat)
    requires code < 0x1_0000
    ensures var bytes := CancelBytes(code);
            && Complete(bytes) && FrameSize(bytes) == 2 && Payload(bytes) == []
            && ParseHead(bytes) == Head(true, CLOSE, ZERO_KEY, 0)
            && BigEndian(bytes[2..]) == code
  {
    hide *;
    var high, low := Digit(code / 256), Digit(code);
    EmptyClose(high, low);
    TwoDigits(code);
    assert CancelBytes(code) == [0x88, 0x00, high, low] by {
      CancelBytesAre(code);
    }
    assert [0x88, 0x00, high, low][2..] == [high, low];
  }

  function Render(outcome: Outcome, chunkSize: nat): seq<Event>
    requires chunkSize > 0
  {
    match outcome
    case Deliver(isBinary, payload) => [Opened(isBinary)] + PartEvents(Split(payload, chunkSize)) + [Closed]
    case Send(reply) => [Written(reply)]
    case Farewell(reply) => [WrittenLast(reply)]
    case Cancel(code) => [Cancelled(code, CancelBytes(code))]
  }

  /** A message goes out as an opening, its parts and a closing. */
  lemma RenderParts(isBinary: bool, payload: seq<byte>, chunkSize: nat, log: seq<Event>)
    requires chunkSize > 0
    ensures log + Render(Deliver(isBinary, payload), chunkSize) ==
            log + [Opened(isBinary)] + PartEvents(Split(payload, chunkSize)) + [Closed]
  {}

  function RenderAll(outcomes: seq<Outcome>, chunkSize: nat): seq<Event>
    requires chunkSize > 0
  {
    if outcomes == [] then [] else Render(outcomes[0], chunkSize) + RenderAll(outcomes[1..], chunkSize)
  }

  lemma RenderOne(outcome: Outcome, rest: seq<Outcome>, chunkSize: nat)
    requires chunkSize > 0
    ensures RenderAll([outcome] + rest, chunkSize) == Render(outcome, chunkSize) + RenderAll(rest, chunkSize)
    ensures RenderAll([outcome], chunkSize) == Render(outcome, chunkSize)
  {
    assert ([outcome] + rest)[1..] == rest;
    assert [outcome][1..] == [];
  }

  /** The other way round: the outcomes that a log of events shows.  `isBinary` and `payload` are those of a message
      whose parts are still coming in. */
  function Observed(events: seq<Event>, isBinary: bool, payload: seq<byte>): seq<Outcome>
    decreases |events|
  {
    if events == [] then []
    else
      match events[0]
      case Opened(b) => Observed(events[1..], b, [])
      case More(part) => Observed(events[1..], isBinary, payload + part)
      case Last(part) => Observed(events[1..], isBinary, payload + part)
      case Closed => [Deliver(isBinary, payload)] + Observed(events[1..], false, [])
      case Written(bytes) => [Send(bytes)] + Observed(events[1..], isBinary, payload)
      case WrittenLast(bytes) => [Farewell(bytes)] + Observed(events[1..], isBinary, payload)
      case Cancelled(code, _) => [Cancel(code)] + Observed(events[1..], isBinary, payload)
  }

  lemma {:induction false} ObservedParts(parts: seq<seq<byte>>, rest: seq<Event>, isBinary: bool, payload: seq<byte>)
    requires parts != []
    ensures Observed(PartEvents(parts) + rest, isBinary, payload) == Observed(rest, isBinary, payload + Join(parts))
    decreases |parts|
  {
    var events := PartEvents(parts) + rest;
    if |parts| == 1 {
      assert events[1..] == rest;
      assert Join(parts[1..]) == [];
      assert parts[0] + [] == parts[0];
    } else {
      assert events[1..] == PartEvents(parts[1..]) + rest;
      ObservedParts(parts[1..], rest, isBinary, payload + parts[0]);
      assert (payload + parts[0]) + Join(parts[1..]) == payload + (parts[0] + Join(parts[1..]));
    }
  }

  lemma ObservedMessage(isBinary: bool, parts: seq<seq<byte>>, rest: seq<Event>)
    requires parts != []
    ensures Observed([Opened(isBinary)] + (PartEvents(parts) + ([Closed] + rest)), false, []) ==
            [Deliver(isBinary, Join(parts))] + Observed(rest, false, [])
  {
    var tail := [Closed] + rest;
    var events := [Opened(isBinary)] + (PartEvents(parts) + tail);
    Cut(events, [Opened(isBinary)], PartEvents(parts) + tail);
    Cut(tail, [Closed], rest);
    Units(Join(parts));
    hide PartEvents, Join;
    ObservedParts(parts, tail, isBinary, []);
  }

  lemma ObservedRender(outcome: Outcome, rest: seq<Event>, chunkSize: nat)
    requires chunkSize > 0
    ensures Observed(Render(outcome, chunkSize) + rest, false, []) == [outcome] + Observed(rest, false, [])
  {
    if outcome.Deliver? {
      hide Observed, PartEvents, Split, Join;
      var parts := Split(outcome.payload, chunkSize);
      SplitIsTight(outcome.payload, chunkSize);
      Associative([Opened(outcome.isBinary)] + PartEvents(parts), [Closed], rest);
      Associative([Opened(outcome.isBinary)], PartEvents(parts), [Closed] + rest);
      ObservedMessage(outcome.isBinary, parts, rest);
    } else {
      assert (Render(outcome, chunkSize) + rest)[1..] == rest;
    }
  }

  /** Nothing is lost in the parts: the log shows the outcomes, whatever the chunk size. */
  lemma {:induction false} ObservedRenderAll(outcomes: seq<Outcome>, chunkSize: nat)
    requires chunkSize > 0
    ensures Observed(RenderAll(outcomes, chunkSize), false, []) == outcomes
  {
    if outcomes == [] {
    } else {
      ObservedRenderAll(outcomes[1..], chunkSize);
      ObservedRender(outcomes[0], RenderAll(outcomes[1..], chunkSize), chunkSize);
    }
  }
}
