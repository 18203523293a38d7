/** What has been logged so far, against what the whole stream means. */
module Progress {
  import opened Arithmetic
  import opened Bytes
  import opened FrameFormat
  import opened Controls
  import opened Decoder
  import opened Delivery
  import opened Faults
  import opened Sequences
  import Gathering
  import Schedule
  import Utf8

  /** The log, continued with what decoding yields from here on, is the log of the whole stream. */
  ghost predicate OnTrack(input: seq<byte>, chunkSize: nat, log: seq<Event>, m: Message, s: seq<byte>)
    requires chunkSize > 0
  {
    RenderAll(Decode(IDLE, input, chunkSize), chunkSize) == log + RenderAll(Decode(m, s, chunkSize), chunkSize)
  }

  /** The log is that of the whole stream already. */
  ghost predicate Finished(input: seq<byte>, chunkSize: nat, log: seq<Event>)
    requires chunkSize > 0
  {
    RenderAll(Decode(IDLE, input, chunkSize), chunkSize) == log
  }

  lemma Begin(input: seq<byte>, chunkSize: nat)
    requires chunkSize > 0
    ensures OnTrack(input, chunkSize, [], IDLE, input)
  {
    hide Decode, RenderAll;
    Units(RenderAll(Decode(IDLE, input, chunkSize), chunkSize));
  }

  /** One outcome further. */
  lemma Forward(input: seq<byte>, chunkSize: nat, log: seq<Event>, m: Message, s: seq<byte>, outcome: Outcome,
                next: Message, rest: seq<byte>)
    requires chunkSize > 0 && OnTrack(input, chunkSize, log, m, s)
    requires Decode(m, s, chunkSize) == [outcome] + Decode(next, rest, chunkSize)
    ensures OnTrack(input, chunkSize, log + Render(outcome, chunkSize), next, rest)
  {
    hide Decode, RenderAll, Render;
    RenderOne(outcome, Decode(next, rest, chunkSize), chunkSize);
    Associative(log, Render(outcome, chunkSize), RenderAll(Decode(next, rest, chunkSize), chunkSize));
  }

  /** The last outcome. */
  lemma Finish(input: seq<byte>, chunkSize: nat, log: seq<Event>, m: Message, s: seq<byte>, outcome: Outcome)
    requires chunkSize > 0 && OnTrack(input, chunkSize, log, m, s)
    requires Decode(m, s, chunkSize) == [outcome]
    ensures Finished(input, chunkSize, log + Render(outcome, chunkSize))
  {
    hide Decode, RenderAll, Render;
    RenderOne(outcome, [], chunkSize);
  }

  lemma {:induction false} RenderConcat(a: seq<Outcome>, b: seq<Outcome>, chunkSize: nat)
    requires chunkSize > 0
    ensures RenderAll(a + b, chunkSize) == RenderAll(a, chunkSize) + RenderAll(b, chunkSize)
  {
    hide Render;
    if a == [] {
      Units(b);
    } else {
      assert (a + b)[1..] == a[1..] + b;
      RenderConcat(a[1..], b, chunkSize);
    }
  }

  /** At the first frame at fault, the log is that of the stream up to there. */
  lemma StoppedAt(input: seq<byte>, chunkSize: uint64, log: seq<Event>, m: Message, s: seq<byte>)
    requires chunkSize > 0 && OnTrack(input, chunkSize, log, m, s)
    requires FirstFault(IDLE, input, chunkSize) == FaultAt(m, s)
    ensures Sound(input, chunkSize) != input
    ensures log == RenderAll(Decode(IDLE, Sound(input, chunkSize), chunkSize), chunkSize)
  {
    hide Decode, RenderAll, FirstFault, Faulty;
    var front, later := Decode(IDLE, Sound(input, chunkSize), chunkSize), Decode(m, s, chunkSize);
    FaultSplits(IDLE, input, chunkSize);
    RenderConcat(front, later, chunkSize);
    SameFront(log, RenderAll(front, chunkSize), RenderAll(later, chunkSize));
  }

  /** Nothing more to come. */
  lemma Stuck(input: seq<byte>, chunkSize: nat, log: seq<Event>, m: Message, s: seq<byte>)
    requires chunkSize > 0 && OnTrack(input, chunkSize, log, m, s)
    requires Decode(m, s, chunkSize) == []
    ensures Finished(input, chunkSize, log)
  {
    hide Decode, Render;
    assert log + [] == log;
  }

  // ---------------------------------------------------------------------------
  // What decoding yields at the places where the session has to decide
  // ---------------------------------------------------------------------------

  lemma BadFirstBytes(m: Message, s: seq<byte>, chunkSize: nat)
    requires chunkSize > 0 && |s| >= 2 && !Defined(s[0], 0)
    ensures Decode(m, s, chunkSize) == [Cancel(1002)]
  {
    if Complete(s) {
      FrontFrame(s);
      assert s[..FrameSize(s)][0] == s[0];
    }
  }

  lemma SameHeadCode(m: Message, s: seq<byte>)
    requires Complete(s)
    ensures Complete(s[..FrameSize(s)]) && HeadCode(m, s[..FrameSize(s)]) == HeadCode(m, s)
  {
    FrontFrame(s);
    assert s[..FrameSize(s)][0] == s[0];
  }

  lemma BadHead(m: Message, s: seq<byte>, chunkSize: nat)
    requires chunkSize > 0 && Whole(s) && HeadCode(m, s) != 0
    ensures Decode(m, s, chunkSize) == [Cancel(HeadCode(m, s))]
  {
    if Complete(s) {
      FrontFrame(s);
      SameHeadCode(m, s);
      hide HeadCode;
    }
  }

  /** A whole control frame. */
  lemma ControlFrame(m: Message, s: seq<byte>, chunkSize: nat)
    requires chunkSize > 0 && Complete(s) && HeadCode(m, s) == 0 && IsControl(Opcode(s[0]))
    ensures Decode(m, s, chunkSize) ==
            match Response(s[0], s[1], MaskingKey(s), Payload(s)) {
              case Reject(code) => [Cancel(code)]
              case Goodbye(reply) => [Farewell(reply)]
              case Reply(reply) => [Send(reply)] + Decode(m, s[FrameSize(s)..], chunkSize)
              case Silence => Decode(m, s[FrameSize(s)..], chunkSize)
            }
  {
    FrontFrame(s);
    SameHeadCode(m, s);
    var f, rest := s[..FrameSize(s)], s[FrameSize(s)..];
    assert f[0] == s[0] && f[1] == s[1];
    assert ParseHead(f).key == MaskingKey(s);
    hide HeadCode, Response, Defined;
    assert [] + Decode(m, rest, chunkSize) == Decode(m, rest, chunkSize);
  }

  lemma DataFrame(m: Message, s: seq<byte>, chunkSize: nat)
    requires chunkSize > 0 && Complete(s) && HeadCode(m, s) == 0 && !IsControl(Opcode(s[0]))
    ensures var step := DataStep(m, Fin(s[0]), Opcode(s[0]), Unmask(Payload(s), MaskingKey(s), 0));
            Decode(m, s, chunkSize) ==
            if step.Stop? then [step.last] else step.outcomes + Decode(step.message, s[FrameSize(s)..], chunkSize)
  {
    FrontFrame(s);
    SameHeadCode(m, s);
    assert s[..FrameSize(s)][0] == s[0];
    hide HeadCode, Unmask, Grown, Utf8.WellFormed, Utf8.Extendable;
  }

  lemma ExtendablePrefix(s: seq<byte>, t: seq<byte>)
    requires Utf8.Extendable(s + t)
    ensures Utf8.Extendable(s)
  {
    var u :| Utf8.WellFormed((s + t) + u);
    assert (s + t) + u == s + (t + u);
  }

  lemma WellFormedExtendable(s: seq<byte>)
    ensures Utf8.WellFormed(s) ==> Utf8.Extendable(s)
  {
    assert s + [] == s;
  }

  lemma LongerFails(text: seq<byte>, plain: seq<byte>, n: nat)
    requires n <= |plain| && !Utf8.Extendable(text + plain[..n])
    ensures !Utf8.Extendable(text + plain) && !Utf8.WellFormed(text + plain)
  {
    var front, back := plain[..n], plain[n..];
    assert plain == front + back;
    Associative(text, front, back);
    WellFormedExtendable(text + plain);
    hide Utf8.Extendable, Utf8.WellFormed;
    if Utf8.Extendable((text + front) + back) {
      ExtendablePrefix(text + front, back);
    }
  }

  lemma StillFails(text: seq<byte>, s: seq<byte>, done: nat, n: nat)
    requires Whole(s) && HeaderSize(s[1]) + n <= |s| && done <= n
    requires !Utf8.Extendable(text + PlainPart(s, done))
    ensures !Utf8.Extendable(text + PlainPart(s, n)) && !Utf8.WellFormed(text + PlainPart(s, n))
  {
    PlainPartPrefix(s, done, n);
    hide Unmask, Utf8.WellFormed, Utf8.Extendable, PlainPart;
    LongerFails(text, PlainPart(s, n), done);
  }

  lemma CutAtLeast(consumed: nat, available: nat, done: nat, size: nat)
    requires size > 0 && 0 < done <= available && (consumed + done) % size == 0
    ensures done <= ReadableCut(consumed, available, size)
  {
    var q, k := (consumed + available) / size, (consumed + done) / size;
    assert consumed + available == q * size + (consumed + available) % size;
    assert consumed + done == k * size + (consumed + done) % size;
    assert (q + 1) * size == q * size + size;
    Monotone(if q < k then q + 1 else k, if q < k then k else q, size);
  }

  lemma CutCovers(consumed: nat, available: nat, done: nat, size: nat)
    requires size > 0 && done <= available && (consumed + done) % size == 0
    ensures done <= ReadableCut(consumed, available, size)
  {
    if done > 0 {
      CutAtLeast(consumed, available, done, size);
    }
  }

  lemma WholeTextFails(m: Message, s: seq<byte>, done: nat, chunkSize: nat)
    requires chunkSize > 0 && Complete(s) && HeadCode(m, s) == 0 && !IsControl(Opcode(s[0])) && Opcode(s[0]) != BINARY
    requires done <= PayloadLength(s) && !Utf8.Extendable(m.text + PlainPart(s, done))
    ensures Decode(m, s, chunkSize) == [Cancel(1007)]
  {
    hide Decode, HeadCode, Unmask, Utf8.WellFormed, Utf8.Extendable, PlainPart, IsControl, PayloadLength, MaskingKey;
    DataFrame(m, s, chunkSize);
    StillFails(m.text, s, done, PayloadLength(s));
    WholePlain(s);
  }

  /** The beginning of a text frame. */
  lemma PartialText(m: Message, s: seq<byte>, chunkSize: nat)
    requires chunkSize > 0 && Whole(s) && !Complete(s) && HeadCode(m, s) == 0
    requires !IsControl(Opcode(s[0])) && Opcode(s[0]) != BINARY
    ensures var n := ReadableCut(|m.payload|, |s| - HeaderSize(s[1]), chunkSize);
            Decode(m, s, chunkSize) == if Utf8.Extendable(m.text + PlainPart(s, n)) then [] else [Cancel(1007)]
  {
    hide Unmask, Utf8.Extendable, ReadableCut;
    var h, available := HeaderSize(s[1]), s[HeaderSize(s[1])..];
    var n := ReadableCut(|m.payload|, |available|, chunkSize);
    Stretch(s, h, n);
  }

  /** A read that ends with a chunk, or a frame that has arrived as a whole, settles what can be said about the text. */
  lemma FailedText(m: Message, s: seq<byte>, done: nat, chunkSize: nat)
    requires chunkSize > 0 && Whole(s) && HeadCode(m, s) == 0 && !IsControl(Opcode(s[0])) && Opcode(s[0]) != BINARY
    requires HeaderSize(s[1]) + done <= |s| && done <= PayloadLength(s)
    requires !Complete(s) ==> (|m.payload| + done) % chunkSize == 0
    requires !Utf8.Extendable(m.text + PlainPart(s, done))
    ensures Decode(m, s, chunkSize) == [Cancel(1007)]
  {
    hide Decode, HeadCode, ReadableCut, Defined, IsControl, Opcode, PayloadLength, PlainPart, Utf8.Extendable;
    if Complete(s) {
      WholeTextFails(m, s, done, chunkSize);
    } else {
      PartialText(m, s, chunkSize);
      CutCovers(|m.payload|, |s| - HeaderSize(s[1]), done, chunkSize);
      StillFails(m.text, s, done, ReadableCut(|m.payload|, |s| - HeaderSize(s[1]), chunkSize));
    }
  }

  lemma SameChunk(c: nat, r: nat, size: nat)
    requires size > 0 && c <= r < (c / size + 1) * size
    ensures r / size == c / size
  {
    Schedule.ChunkEnd(c, size);
    assert (c / size + 1) * size == c / size * size + size;
    Quotient(r, size, c / size, r - c / size * size);
  }

  lemma Multiple(c: nat, size: nat)
    requires size > 0 && c % size == 0
    ensures c / size * size == c
  {
    assert c == c / size * size + c % size;
  }

  /** With the next read out of reach, exactly the bytes that have been read are the readable ones. */
  lemma CutIsDone(consumed: nat, available: nat, done: nat, length: nat, size: nat)
    requires size > 0 && done <= available < length
    requires done == 0 || (consumed + done) % size == 0
    requires done + Schedule.NextRead(consumed + done, consumed + length, size) > available
    ensures ReadableCut(consumed, available, size) == done
  {
    var c, r := consumed + done, consumed + available;
    assert r < (c / size + 1) * size by {
      hide ReadableCut;
    }
    SameChunk(c, r, size);
    if done > 0 {
      Multiple(c, size);
    } else {
      CutInRange(c, size);
    }
  }

  // ---------------------------------------------------------------------------
  // The places where the session waits for more
  // ---------------------------------------------------------------------------

  lemma WaitingForHead(m: Message, s: seq<byte>, chunkSize: nat)
    requires chunkSize > 0
    requires |s| < 2 || (Defined(s[0], 0) && !Whole(s))
    ensures Decode(m, s, chunkSize) == []
  {}

  lemma WaitingForControl(m: Message, s: seq<byte>, chunkSize: nat)
    requires chunkSize > 0 && Whole(s) && !Complete(s) && HeadCode(m, s) == 0 && IsControl(Opcode(s[0]))
    ensures Decode(m, s, chunkSize) == []
  {}

  lemma PartialBinary(m: Message, s: seq<byte>, chunkSize: nat)
    requires chunkSize > 0 && Whole(s) && !Complete(s) && HeadCode(m, s) == 0 && Opcode(s[0]) == BINARY
    ensures Decode(m, s, chunkSize) == []
  {}

  lemma WaitingForData(m: Message, s: seq<byte>, done: nat, chunkSize: nat)
    requires chunkSize > 0 && Whole(s) && !Complete(s) && HeadCode(m, s) == 0 && !IsControl(Opcode(s[0]))
    requires HeaderSize(s[1]) + done <= |s| < HeaderSize(s[1]) + PayloadLength(s)
    requires done == 0 || (|m.payload| + done) % chunkSize == 0
    requires done + Schedule.NextRead(|m.payload| + done, |m.payload| + PayloadLength(s), chunkSize)
             > |s| - HeaderSize(s[1])
    requires Opcode(s[0]) != BINARY ==> Utf8.Extendable(m.text + PlainPart(s, done))
    ensures Decode(m, s, chunkSize) == []
  {
    hide Decode, HeadCode, Opcode, IsControl, PlainPart, ReadableCut, PayloadLength, Schedule.NextRead, Utf8.Extendable;
    if Opcode(s[0]) == BINARY {
      PartialBinary(m, s, chunkSize);
    } else {
      PartialText(m, s, chunkSize);
      CutIsDone(|m.payload|, |s| - HeaderSize(s[1]), done, PayloadLength(s), chunkSize);
    }
  }

  // ---------------------------------------------------------------------------
  // The frame that is being received
  // ---------------------------------------------------------------------------

  /** The same header in front of other bytes. */
  lemma SameHeader(b: seq<byte>, s: seq<byte>)
    requires 2 <= |b| && 2 <= |s| && Whole(b) && HeaderSize(b[1]) <= |s|
    requires b[..HeaderSize(b[1])] == s[..HeaderSize(b[1])]
    ensures Whole(s) && b[0] == s[0] && b[1] == s[1] && ParseHead(b) == ParseHead(s)
    ensures MaskingKey(b) == MaskingKey(s) && PayloadLength(b) == PayloadLength(s)
  {
    var n := HeaderSize(b[1]);
    var h := b[..n];
    assert h[1] == b[1] && s[1] == h[1];
    assert b == h + b[n..] && s == h + s[n..];
    ParsePrefix(h, b[n..]);
    ParsePrefix(h, s[n..]);
  }

  lemma ControlIsShort(m: Message, s: seq<byte>)
    requires Whole(s) && HeadCode(m, s) == 0 && IsControl(Opcode(s[0]))
    ensures PayloadLength(s) <= 125 && Fin(s[0])
  {}

  lemma RejectCode(b0: byte, b1: byte, key: Key, raw: seq<byte>)
    ensures Response(b0, b1, key, raw).Reject? ==> Response(b0, b1, key, raw).code == 1007
  {}

  /** A control frame that leads on to the next frame. */
  lemma ControlGoesOn(input: seq<byte>, chunkSize: uint64, log: seq<Event>, m: Message, s: seq<byte>)
    requires chunkSize > 0 && OnTrack(input, chunkSize, log, m, s)
    requires Complete(s) && HeadCode(m, s) == 0 && IsControl(Opcode(s[0]))
    ensures var answer, rest := Response(s[0], s[1], MaskingKey(s), Payload(s)), s[FrameSize(s)..];
            && (answer.Reject? ==> answer.code == 1007 && Decode(m, s, chunkSize) == [Cancel(1007)])
            && (answer.Goodbye? ==> Finished(input, chunkSize, log + [WrittenLast(answer.reply)]))
            && (answer.Reply? ==> OnTrack(input, chunkSize, log + [Written(answer.reply)], m, rest))
            && (answer.Silence? ==> OnTrack(input, chunkSize, log, m, rest))
            && FirstFault(m, s, chunkSize) ==
               if answer.Reply? || answer.Silence? then FirstFault(m, rest, chunkSize) else NoFault
  {
    ControlFrame(m, s, chunkSize);
    var answer, rest := Response(s[0], s[1], MaskingKey(s), Payload(s)), s[FrameSize(s)..];
    RejectCode(s[0], s[1], MaskingKey(s), Payload(s));
    NoFaultInControl(m, s, chunkSize);
    hide Response, Decode, HeadCode, Payload, MaskingKey, RenderAll, FirstFault;
    if answer.Goodbye? {
      Finish(input, chunkSize, log, m, s, Farewell(answer.reply));
    } else if answer.Reply? {
      Forward(input, chunkSize, log, m, s, Send(answer.reply), m, rest);
    }
  }

  /** The gatherer refuses what the decoder refuses. */
  lemma DataRefused(m: Message, s: seq<byte>, done: nat, chunkSize: uint64)
    requires chunkSize > 0 && DataAhead(m, s) && HeaderSize(s[1]) + done <= |s| && done <= PayloadLength(s)
    requires !Complete(s) ==> (|m.payload| + done) % chunkSize == 0
    requires CheckedPart(m, s, done) == Utf8.Failed
             || (Fin(s[0]) && done == PayloadLength(s) && CheckedPart(m, s, done) != Utf8.START)
    ensures Decode(m, s, chunkSize) == [Cancel(1007)]
  {
    DataBinary(m, s, done);
    CheckedText(m.text, ReadsAsBinary(s[0]), PlainPart(s, done));
    hide Decode, HeadCode, PlainPart, Utf8.Consume, Utf8.WellFormed, Utf8.Extendable, ReadsAsBinary;
    if CheckedPart(m, s, done) == Utf8.Failed {
      FailedText(m, s, done, chunkSize);
    } else {
      DataFrame(m, s, chunkSize);
      WholePlain(s);
    }
  }

  /** The message after a whole data frame. */
  function NextMessage(m: Message, s: seq<byte>): Message
    requires Whole(s) && HeaderSize(s[1]) + PayloadLength(s) <= |s|
  {
    Grown(m, Fin(s[0]), Opcode(s[0]), PlainPart(s, PayloadLength(s)))
  }

  lemma Sideways(input: seq<byte>, chunkSize: nat, log: seq<Event>, m: Message, s: seq<byte>, next: Message,
                 rest: seq<byte>)
    requires chunkSize > 0 && OnTrack(input, chunkSize, log, m, s)
    requires Decode(m, s, chunkSize) == Decode(next, rest, chunkSize)
    ensures OnTrack(input, chunkSize, log, next, rest)
  {}

  /** The gatherer accepts what the decoder accepts. */
  lemma DataAccepted(input: seq<byte>, chunkSize: uint64, log: seq<Event>, m: Message, s: seq<byte>)
    requires chunkSize > 0 && OnTrack(input, chunkSize, log, m, s)
    requires DataAhead(m, s) && Complete(s)
    requires CheckedPart(m, s, PayloadLength(s)) != Utf8.Failed
    requires Fin(s[0]) ==> CheckedPart(m, s, PayloadLength(s)) == Utf8.START
    ensures var next, rest := NextMessage(m, s), s[FrameSize(s)..];
            && CheckedPart(m, s, PayloadLength(s)) == Utf8.Consume(Utf8.START, next.text)
            && next.open == !Fin(s[0]) && next.payload == m.payload + PlainPart(s, PayloadLength(s))
            && if Fin(s[0]) then
                 OnTrack(input, chunkSize, log + Render(Deliver(ReadsAsBinary(s[0]), next.payload), chunkSize),
                         IDLE, rest)
               else OnTrack(input, chunkSize, log, next, rest)
    ensures Accepts(m, s)
  {
    var next, rest := NextMessage(m, s), s[FrameSize(s)..];
    DataBinary(m, s, PayloadLength(s));
    WholePlain(s);
    CheckedText(m.text, ReadsAsBinary(s[0]), PlainPart(s, PayloadLength(s)));
    DataFrame(m, s, chunkSize);
    hide Decode, HeadCode, PlainPart, Unmask, Payload, Utf8.Consume, Utf8.WellFormed, Utf8.Extendable, ReadsAsBinary,
      Render, RenderAll, OnTrack, FirstFault, Counts;
    if Fin(s[0]) {
      Forward(input, chunkSize, log, m, s, Deliver(ReadsAsBinary(s[0]), next.payload), IDLE, rest);
    } else {
      Units(Decode(next, rest, chunkSize));
      Sideways(input, chunkSize, log, m, s, next, rest);
    }
  }

  /** It is at fault only when it cannot be closed. */
  lemma DataFaults(m: Message, s: seq<byte>, chunkSize: uint64)
    requires chunkSize > 0 && DataAhead(m, s) && Complete(s) && Counts(m, s, chunkSize)
    requires CheckedPart(m, s, PayloadLength(s)) != Utf8.Failed
    requires Fin(s[0]) ==> CheckedPart(m, s, PayloadLength(s)) == Utf8.START
    ensures FirstFault(m, s, chunkSize) ==
            if Fin(s[0]) && !Gathering.Closable(|m.payload| + PayloadLength(s), chunkSize) then FaultAt(m, s)
            else FirstFault(if Fin(s[0]) then IDLE else NextMessage(m, s), s[FrameSize(s)..], chunkSize)
  {
    DataBinary(m, s, PayloadLength(s));
    WholePlain(s);
    CheckedText(m.text, ReadsAsBinary(s[0]), PlainPart(s, PayloadLength(s)));
    DataCounts(m, s, chunkSize);
    hide HeadCode, PlainPart, Unmask, Payload, Utf8.Consume, Utf8.WellFormed, Utf8.Extendable, ReadsAsBinary,
      FirstFault, Counts, Gathering.Closable;
  }

  // ---------------------------------------------------------------------------
  // A stream that goes on
  // ---------------------------------------------------------------------------

  /** How much of an unfinished frame is read: all bytes up to the last place where a chunk ends. */
  lemma CutIsLast(consumed: nat, available: nat, size: nat, n: nat)
    requires size > 0 && n <= available
    ensures var cut := ReadableCut(consumed, available, size);
            && (cut == 0 || (consumed + cut) % size == 0)
            && ((consumed + n) % size == 0 ==> n <= cut)
  {
    if n > 0 && (consumed + n) % size == 0 {
      CutAtLeast(consumed, available, n, size);
    }
    var q := (consumed + available) / size;
    if q * size > consumed {
      Quotient(q * size, size, q, 0);
    }
  }

  /** With more bytes of the same frame, no less is read. */
  lemma CutGrows(consumed: nat, available: nat, more: nat, size: nat)
    requires size > 0 && available <= more
    ensures ReadableCut(consumed, available, size) <= ReadableCut(consumed, more, size)
  {
    var n := ReadableCut(consumed, available, size);
    CutIsLast(consumed, available, size, 0);
    CutIsLast(consumed, more, size, n);
    hide ReadableCut;
  }

  lemma LongerHeader(m: Message, s: seq<byte>, t: seq<byte>)
    requires Whole(s)
    ensures Whole(s + t) && (s + t)[0] == s[0] && (s + t)[1] == s[1] && ParseHead(s + t) == ParseHead(s)
    ensures HeadCode(m, s + t) == HeadCode(m, s) && MaskingKey(s + t) == MaskingKey(s)
    ensures PayloadLength(s + t) == PayloadLength(s)
  {
    ParsePrefix(s, t);
    hide PayloadLength, MaskingKey, HeaderSize, Opcode, Fin, IsControl;
    assert ParseHead(s).length == PayloadLength(s) && ParseHead(s).key == MaskingKey(s);
  }

  lemma LongerSlice<T>(s: seq<T>, t: seq<T>, i: nat, n: nat)
    requires i + n <= |s|
    ensures (s + t)[i..i + n] == s[i..i + n]
  {}

  lemma LongerPlain(s: seq<byte>, t: seq<byte>, done: nat)
    requires Whole(s) && Whole(s + t) && (s + t)[1] == s[1] && MaskingKey(s + t) == MaskingKey(s)
    requires HeaderSize(s[1]) + done <= |s|
    ensures PlainPart(s + t, done) == PlainPart(s, done)
  {
    hide Unmask, MaskingKey, HeaderSize;
    LongerSlice(s, t, HeaderSize(s[1]), done);
  }

  lemma Arrives(s: seq<byte>, longer: seq<byte>, n: nat)
    requires Whole(s) && !Complete(s) && HeaderSize(s[1]) + n <= |s|
    ensures n <= PayloadLength(s)
  {}

  /** Text that is refused in an unfinished frame is refused when more of it has arrived. */
  lemma StillRefused(m: Message, s: seq<byte>, t: seq<byte>, chunkSize: nat)
    requires chunkSize > 0 && Whole(s) && !Complete(s) && HeadCode(m, s) == 0
    requires !IsControl(Opcode(s[0])) && Opcode(s[0]) != BINARY
    requires Decode(m, s, chunkSize) != []
    ensures Decode(m, s + t, chunkSize) == Decode(m, s, chunkSize) == [Cancel(1007)]
  {
    hide Decode, HeadCode, IsControl, Opcode, PlainPart, ReadableCut, Utf8.Extendable, Utf8.WellFormed, MaskingKey,
      ParseHead, PayloadLength, HeaderSize, Complete;
    PartialText(m, s, chunkSize);
    LongerHeader(m, s, t);
    var n := ReadableCut(|m.payload|, |s| - HeaderSize(s[1]), chunkSize);
    LongerPlain(s, t, n);
    if Complete(s + t) {
      Arrives(s, s + t, n);
      WholeTextFails(m, s + t, n, chunkSize);
    } else {
      var more := ReadableCut(|m.payload|, |s + t| - HeaderSize(s[1]), chunkSize);
      PartialText(m, s + t, chunkSize);
      CutGrows(|m.payload|, |s| - HeaderSize(s[1]), |s + t| - HeaderSize(s[1]), chunkSize);
      StillFails(m.text, s + t, n, more);
    }
  }

  /** What an unfinished frame does already is not taken back. */
  lemma PartialStands(m: Message, s: seq<byte>, t: seq<byte>, chunkSize: nat)
    requires chunkSize > 0 && !Complete(s) && Decode(m, s, chunkSize) != []
    ensures Decode(m, s + t, chunkSize) == Decode(m, s, chunkSize)
  {
    if |s| < 2 {
    } else if !Defined(s[0], 0) {
      assert (s + t)[0] == s[0];
      BadFirstBytes(m, s, chunkSize);
      BadFirstBytes(m, s + t, chunkSize);
    } else if !Whole(s) {
    } else if HeadCode(m, s) != 0 {
      LongerHeader(m, s, t);
      BadHead(m, s, chunkSize);
      BadHead(m, s + t, chunkSize);
    } else if IsControl(Opcode(s[0])) {
      WaitingForControl(m, s, chunkSize);
    } else if Opcode(s[0]) == BINARY {
      PartialBinary(m, s, chunkSize);
    } else {
      StillRefused(m, s, t, chunkSize);
    }
  }

  lemma PrefixBehind<T>(a: seq<T>, b: seq<T>, c: seq<T>)
    requires b <= c
    ensures a + b <= a + c
  {}

  /** Bytes that arrive later add outcomes, and never take one back. */
  lemma {:induction false} DecodeGrows(m: Message, s: seq<byte>, t: seq<byte>, chunkSize: nat)
    requires chunkSize > 0
    ensures Decode(m, s, chunkSize) <= Decode(m, s + t, chunkSize)
    decreases |s|
  {
    if !Complete(s) {
      hide Decode;
      if Decode(m, s, chunkSize) != [] {
        PartialStands(m, s, t, chunkSize);
      }
    } else {
      hide Decode, FrameStep, FrameSize;
      var f, rest := s[..FrameSize(s)], s[FrameSize(s)..];
      FrontIsFrame(s);
      Front(s, FrameSize(s), 0);
      Associative(f, rest, t);
      DecodeFrame(m, f, rest, chunkSize);
      DecodeFrame(m, f, rest + t, chunkSize);
      var step := FrameStep(m, f);
      if step.Go? {
        DecodeGrows(step.message, rest, t, chunkSize);
        PrefixBehind(step.outcomes, Decode(step.message, rest, chunkSize), Decode(step.message, rest + t, chunkSize));
      }
    }
  }
}
