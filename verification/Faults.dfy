/** Where the 64-bit counters of a session go wrong: the frame at which a message's total wraps around, a read reaches
    into a chunk that ends at 2^64 or behind it, or the last chunk of a message is closed with a wrong size. */
module Faults {
  import opened Arithmetic
  import opened Bytes
  import opened FrameFormat
  import opened Controls
  import opened Decoder
  import opened NetworkOrder
  import opened Sequences
  import Gathering
  import Schedule
  import Utf8

  /** The plain bytes of the first `done` payload bytes. */
  function PlainPart(s: seq<byte>, done: nat): (plain: seq<byte>)
    requires Whole(s) && HeaderSize(s[1]) + done <= |s|
    ensures |plain| == done
  {
    Unmask(s[HeaderSize(s[1])..HeaderSize(s[1]) + done], MaskingKey(s), 0)
  }

  lemma PlainPartPrefix(s: seq<byte>, done: nat, more: nat)
    requires Whole(s) && HeaderSize(s[1]) + more <= |s| && done <= more
    ensures PlainPart(s, done) == PlainPart(s, more)[..done]
  {
    hide Unmask, MaskingKey, PayloadLength, ExtendedSize;
    var n := HeaderSize(s[1]);
    var a, b := s[n..n + done], s[n + done..n + more];
    Adjacent(s, n, n + done, n + more);
    UnmaskConcat(a, b, MaskingKey(s), 0);
    Cut(PlainPart(s, more), Unmask(a, MaskingKey(s), 0), Unmask(b, MaskingKey(s), done));
  }

  lemma WholePlain(s: seq<byte>)
    requires Complete(s)
    ensures PlainPart(s, PayloadLength(s)) == Unmask(Payload(s), MaskingKey(s), 0)
  {}

  /** The next stretch of plain bytes, unmasked from where the one before it ended. */
  lemma PlainNext(s: seq<byte>, done: nat, amount: nat)
    requires Whole(s) && HeaderSize(s[1]) + done + amount <= |s|
    ensures var n := HeaderSize(s[1]);
            PlainPart(s, done + amount) ==
            PlainPart(s, done) + Unmask(s[n + done..n + done + amount], MaskingKey(s), done)
  {
    hide Unmask, MaskingKey;
    var n := HeaderSize(s[1]);
    Adjacent(s, n, n + done, n + done + amount);
    UnmaskConcat(s[n..n + done], s[n + done..n + done + amount], MaskingKey(s), 0);
  }

  lemma NoPlain(s: seq<byte>)
    requires Whole(s)
    ensures PlainPart(s, 0) == []
  {}

  /** The text with a stretch of a frame. */
  function TextWith(text: seq<byte>, isBinary: bool, plain: seq<byte>): seq<byte> {
    text + if isBinary then [] else plain
  }

  /** The checker follows the text. */
  lemma CheckedText(text: seq<byte>, isBinary: bool, plain: seq<byte>)
    ensures Gathering.Checked(Utf8.Consume(Utf8.START, text), isBinary, plain) ==
            Utf8.Consume(Utf8.START, TextWith(text, isBinary, plain))
    ensures Utf8.Consume(Utf8.START, TextWith(text, isBinary, plain)) == Utf8.START
            <==> Utf8.WellFormed(TextWith(text, isBinary, plain))
    ensures Utf8.Consume(Utf8.START, TextWith(text, isBinary, plain)) != Utf8.Failed
            <==> Utf8.Extendable(TextWith(text, isBinary, plain))
  {
    hide Utf8.Consume, Utf8.WellFormed, Utf8.Extendable;
    Utf8.ConsumeConcat(Utf8.START, text, if isBinary then [] else plain);
    Utf8.CompleteIffWellFormed(TextWith(text, isBinary, plain));
    Utf8.NotFailedIffExtendable(TextWith(text, isBinary, plain));
  }

  lemma CheckedMore(e: Utf8.Expect, isBinary: bool, a: seq<byte>, b: seq<byte>)
    ensures Gathering.Checked(Gathering.Checked(e, isBinary, a), isBinary, b) == Gathering.Checked(e, isBinary, a + b)
  {
    Utf8.ConsumeConcat(e, a, b);
  }

  /** What the checker makes of the first `done` bytes of a data frame. */
  function CheckedPart(m: Message, s: seq<byte>, done: nat): Utf8.Expect
    requires Whole(s) && HeaderSize(s[1]) + done <= |s|
  {
    Gathering.Checked(Utf8.Consume(Utf8.START, m.text), ReadsAsBinary(s[0]), PlainPart(s, done))
  }

  /** Among the data frames the second bit of the opcode tells binary ones. */
  lemma BinaryBit(b0: byte)
    requires Defined(b0, 0) && !IsControl(Opcode(b0))
    ensures ReadsAsBinary(b0) <==> Opcode(b0) == BINARY
  {}

  /** A binary frame starts a message. */
  lemma BinaryStarts(m: Message, s: seq<byte>)
    requires Whole(s) && HeadCode(m, s) == 0 && Opcode(s[0]) == BINARY
    ensures !m.open
  {}

  ghost predicate DataAhead(m: Message, s: seq<byte>) {
    Whole(s) && HeadCode(m, s) == 0 && !IsControl(Opcode(s[0])) && (!m.open ==> m == IDLE)
  }

  lemma DataBinary(m: Message, s: seq<byte>, done: nat)
    requires DataAhead(m, s) && HeaderSize(s[1]) + done <= |s|
    ensures ReadsAsBinary(s[0]) <==> Opcode(s[0]) == BINARY
    ensures Opcode(s[0]) == BINARY ==> m == IDLE && CheckedPart(m, s, done) == Utf8.START
  {
    assert Defined(s[0], 0);
    BinaryBit(s[0]);
    if Opcode(s[0]) == BINARY {
      BinaryStarts(m, s);
    }
  }

  // ---------------------------------------------------------------------------
  // The frame at fault
  // ---------------------------------------------------------------------------

  /** A read is asked for behind the first `done` payload bytes of the frame: at the beginning of the frame or of a
      chunk, unless the text has been refused before. */
  ghost predicate Asked(m: Message, s: seq<byte>, done: nat, chunkSize: nat)
    requires chunkSize > 0 && Whole(s)
  {
    && HeaderSize(s[1]) + done <= |s| && done < PayloadLength(s)
    && (done == 0 || (|m.payload| + done) % chunkSize == 0)
    && CheckedPart(m, s, done) != Utf8.Failed
  }

  /** All the reads that are asked for before `done` go to chunks that end below 2^64. */
  ghost predicate Covered(m: Message, s: seq<byte>, done: nat, chunkSize: nat)
    requires chunkSize > 0 && Whole(s)
  {
    forall d: nat :: d < done && Asked(m, s, d, chunkSize) ==> Gathering.ChunkFits(|m.payload| + d, chunkSize)
  }

  /** The whole payload is accepted. */
  ghost predicate Accepts(m: Message, s: seq<byte>)
    requires Complete(s)
  {
    DataStep(m, Fin(s[0]), Opcode(s[0]), Unmask(Payload(s), MaskingKey(s), 0)).Go?
  }

  /** The total and the reads of a data frame are right. */
  ghost predicate Counts(m: Message, s: seq<byte>, chunkSize: nat)
    requires chunkSize > 0 && Whole(s)
  {
    |m.payload| + PayloadLength(s) < U64 && Covered(m, s, PayloadLength(s), chunkSize)
  }

  /** A counter goes wrong at the frame at the front of `s`. */
  ghost predicate Faulty(m: Message, s: seq<byte>, chunkSize: uint64)
    requires chunkSize > 0
  {
    && Whole(s) && HeadCode(m, s) == 0 && !IsControl(Opcode(s[0]))
    && (|| !Counts(m, s, chunkSize)
        || (Complete(s) && Fin(s[0]) && Accepts(m, s)
            && !Gathering.Closable(|m.payload| + PayloadLength(s), chunkSize)))
  }

  /** The message in progress at the first frame at fault, and the stream from there on. */
  datatype Fault = NoFault | FaultAt(message: Message, rest: seq<byte>)

  ghost function FirstFault(m: Message, s: seq<byte>, chunkSize: uint64): (fault: Fault)
    requires chunkSize > 0
    ensures fault.FaultAt? ==> 0 < |fault.rest| <= |s| && Faulty(fault.message, fault.rest, chunkSize)
    decreases |s|
  {
    if Faulty(m, s, chunkSize) then FaultAt(m, s)
    else if !Complete(s) then NoFault
    else
      FrontFrame(s);
      var step := FrameStep(m, s[..FrameSize(s)]);
      if step.Stop? then NoFault else FirstFault(step.message, s[FrameSize(s)..], chunkSize)
  }

  /** The stream up to the first frame at fault; all of it, if there is none. */
  ghost function Sound(s: seq<byte>, chunkSize: uint64): (front: seq<byte>)
    requires chunkSize > 0
    ensures front <= s && (front == s <==> FirstFault(IDLE, s, chunkSize).NoFault?)
  {
    var fault := FirstFault(IDLE, s, chunkSize);
    if fault.NoFault? then s else s[..|s| - |fault.rest|]
  }

  lemma FrontIsFrame(s: seq<byte>)
    requires Complete(s)
    ensures Frame(s[..FrameSize(s)])
  {
    FrontFrame(s);
  }

  lemma NoneLeft(m: Message, chunkSize: nat)
    requires chunkSize > 0
    ensures Decode(m, [], chunkSize) == []
  {}

  lemma FaultHere(m: Message, s: seq<byte>, chunkSize: uint64)
    requires chunkSize > 0 && Faulty(m, s, chunkSize)
    ensures FirstFault(m, s, chunkSize) == FaultAt(m, s)
  {}

  /** A fault further on. */
  lemma FaultBehind(m: Message, s: seq<byte>, chunkSize: uint64)
    requires chunkSize > 0 && FirstFault(m, s, chunkSize).FaultAt? && !Faulty(m, s, chunkSize)
    ensures Complete(s) && Whole(s) && FrameSize(s) <= |s|
    ensures Complete(s[..FrameSize(s)]) && Frame(s[..FrameSize(s)])
    ensures var step, rest := FrameStep(m, s[..FrameSize(s)]), s[FrameSize(s)..];
            && step.Go?
            && FirstFault(m, s, chunkSize) == FirstFault(step.message, rest, chunkSize)
            && |FirstFault(m, s, chunkSize).rest| <= |rest|
  {
    hide Faulty, FrameStep;
    FrontIsFrame(s);
  }

  /** Decoding the first `k` bytes and going on with `next` and `rest` is decoding all of `s`. */
  ghost predicate Splits(m: Message, s: seq<byte>, k: nat, next: Message, rest: seq<byte>, chunkSize: nat)
    requires chunkSize > 0 && k <= |s|
  {
    Decode(m, s, chunkSize) == Decode(m, s[..k], chunkSize) + Decode(next, rest, chunkSize)
  }

  lemma SplitsHere(m: Message, s: seq<byte>, chunkSize: nat)
    requires chunkSize > 0
    ensures Splits(m, s, 0, m, s, chunkSize)
  {
    assert s[..0] == [];
    NoneLeft(m, chunkSize);
    hide Decode;
    Units(Decode(m, s, chunkSize));
  }

  lemma SplitsBehind(m: Message, s: seq<byte>, k: nat, next: Message, last: seq<byte>, chunkSize: nat)
    requires chunkSize > 0 && Complete(s) && FrameSize(s) + k <= |s|
    requires Frame(s[..FrameSize(s)]) && FrameStep(m, s[..FrameSize(s)]).Go?
    requires Splits(FrameStep(m, s[..FrameSize(s)]).message, s[FrameSize(s)..], k, next, last, chunkSize)
    ensures Splits(m, s, FrameSize(s) + k, next, last, chunkSize)
  {
    hide Decode, FrameStep, FrameSize;
    var f, rest := s[..FrameSize(s)], s[FrameSize(s)..];
    var step := FrameStep(m, f);
    Front(s, FrameSize(s), k);
    DecodeFrame(m, f, rest, chunkSize);
    DecodeFrame(m, f, rest[..k], chunkSize);
    Associative(step.outcomes, Decode(step.message, rest[..k], chunkSize), Decode(next, last, chunkSize));
  }

  /** What comes before the frame at fault is decoded as if the stream ended there. */
  lemma {:induction false} FaultSplits(m: Message, s: seq<byte>, chunkSize: uint64)
    requires chunkSize > 0 && FirstFault(m, s, chunkSize).FaultAt?
    ensures var fault := FirstFault(m, s, chunkSize);
            |fault.rest| <= |s| && Splits(m, s, |s| - |fault.rest|, fault.message, fault.rest, chunkSize)
    decreases |s|
  {
    hide *;
    var fault := FirstFault(m, s, chunkSize);
    if Faulty(m, s, chunkSize) {
      FaultHere(m, s, chunkSize);
      SplitsHere(m, s, chunkSize);
    } else {
      FaultBehind(m, s, chunkSize);
      var step, rest := FrameStep(m, s[..FrameSize(s)]), s[FrameSize(s)..];
      FaultSplits(step.message, rest, chunkSize);
      SplitsBehind(m, s, |rest| - |fault.rest|, fault.message, fault.rest, chunkSize);
    }
  }

  // ---------------------------------------------------------------------------
  // Frame by frame
  // ---------------------------------------------------------------------------

  lemma SameStep(m: Message, s: seq<byte>)
    requires Complete(s)
    ensures Complete(s[..FrameSize(s)])
    ensures HeadCode(m, s) == 0 && !IsControl(Opcode(s[0])) ==>
              FrameStep(m, s[..FrameSize(s)]) ==
              DataStep(m, Fin(s[0]), Opcode(s[0]), Unmask(Payload(s), MaskingKey(s), 0))
    ensures HeadCode(m, s) != 0 ==> FrameStep(m, s[..FrameSize(s)]).Stop?
  {
    FrontFrame(s);
    assert s[..FrameSize(s)][0] == s[0];
    hide Unmask, DataStep;
  }

  /** No fault before the header is there, or in a frame that is refused for its header. */
  lemma NoFaultInHead(m: Message, s: seq<byte>, chunkSize: uint64)
    requires chunkSize > 0 && (Whole(s) ==> HeadCode(m, s) != 0)
    ensures FirstFault(m, s, chunkSize) == NoFault
  {
    hide HeadCode, FrameStep;
    if Complete(s) {
      SameStep(m, s);
    }
  }

  lemma SameHead(m: Message, s: seq<byte>)
    requires Complete(s)
    ensures var f := s[..FrameSize(s)];
            Complete(f) && f[0] == s[0] && f[1] == s[1] && HeadCode(m, f) == HeadCode(m, s)
  {
    FrontFrame(s);
    assert s[..FrameSize(s)][0] == s[0] && s[..FrameSize(s)][1] == s[1];
  }

  /** Control frames are not counted. */
  lemma NoFaultInControl(m: Message, s: seq<byte>, chunkSize: uint64)
    requires chunkSize > 0 && Whole(s) && HeadCode(m, s) == 0 && IsControl(Opcode(s[0]))
    ensures !Complete(s) ==> FirstFault(m, s, chunkSize) == NoFault
    ensures Complete(s) ==>
              var answer := Response(s[0], s[1], MaskingKey(s), Payload(s));
              FirstFault(m, s, chunkSize) ==
              if answer.Reject? || answer.Goodbye? then NoFault else FirstFault(m, s[FrameSize(s)..], chunkSize)
  {
    hide HeadCode, Response;
    if Complete(s) {
      FrontFrame(s);
      SameHead(m, s);
    }
  }

  /** A data frame that counts. */
  lemma DataCounts(m: Message, s: seq<byte>, chunkSize: uint64)
    requires chunkSize > 0 && Whole(s) && HeadCode(m, s) == 0 && !IsControl(Opcode(s[0])) && Counts(m, s, chunkSize)
    ensures !Complete(s) ==> FirstFault(m, s, chunkSize) == NoFault
    ensures Complete(s) && !Accepts(m, s) ==> FirstFault(m, s, chunkSize) == NoFault
    ensures Complete(s) && Accepts(m, s) ==>
              FirstFault(m, s, chunkSize) ==
              if Fin(s[0]) && !Gathering.Closable(|m.payload| + PayloadLength(s), chunkSize) then FaultAt(m, s)
              else
                FirstFault(DataStep(m, Fin(s[0]), Opcode(s[0]), Unmask(Payload(s), MaskingKey(s), 0)).message,
                           s[FrameSize(s)..], chunkSize)
  {
    hide HeadCode, FrameStep, DataStep, Counts, Unmask, IsControl, Opcode;
    if Complete(s) {
      SameStep(m, s);
    }
  }

  /** Another read that fits; no chunk begins within it. */
  lemma CoveredNext(m: Message, s: seq<byte>, done: nat, amount: nat, chunkSize: nat)
    requires chunkSize > 0 && Whole(s) && Covered(m, s, done, chunkSize)
    requires Gathering.ChunkFits(|m.payload| + done, chunkSize)
    requires forall e :: |m.payload| + done < e < |m.payload| + done + amount ==> e % chunkSize != 0
    ensures Covered(m, s, done + amount, chunkSize)
  {
    hide CheckedPart, Gathering.ChunkFits;
    forall d: nat | d < done + amount && Asked(m, s, d, chunkSize)
      ensures d <= done
    {
    }
  }

  /** A read that is asked for and does not fit. */
  lemma AskAtFault(m: Message, s: seq<byte>, done: nat, chunkSize: uint64)
    requires chunkSize > 0 && Whole(s) && HeadCode(m, s) == 0 && !IsControl(Opcode(s[0]))
    requires Asked(m, s, done, chunkSize) && !Gathering.ChunkFits(|m.payload| + done, chunkSize)
    ensures Faulty(m, s, chunkSize) && FirstFault(m, s, chunkSize) == FaultAt(m, s)
  {
    hide CheckedPart, HeadCode, Gathering.ChunkFits;
  }

  lemma TotalAtFault(m: Message, s: seq<byte>, chunkSize: uint64)
    requires chunkSize > 0 && Whole(s) && HeadCode(m, s) == 0 && !IsControl(Opcode(s[0]))
    requires |m.payload| + PayloadLength(s) >= U64
    ensures Faulty(m, s, chunkSize) && FirstFault(m, s, chunkSize) == FaultAt(m, s)
  {}

  /** What has been refused stays refused. */
  lemma StaysFailed(m: Message, s: seq<byte>, done: nat, more: nat)
    requires Whole(s) && HeaderSize(s[1]) + more <= |s| && done <= more
    requires CheckedPart(m, s, done) == Utf8.Failed
    ensures CheckedPart(m, s, more) == Utf8.Failed
  {
    hide PlainPart, Unmask, MaskingKey, ReadsAsBinary;
    var n := HeaderSize(s[1]);
    var plain := Unmask(s[n + done..n + more], MaskingKey(s), done);
    PlainNext(s, done, more - done);
    CheckedMore(Utf8.Consume(Utf8.START, m.text), ReadsAsBinary(s[0]), PlainPart(s, done), plain);
    Utf8.FailedForever(plain);
  }

  /** Nothing is asked for behind what has been refused. */
  lemma RefusedCounts(m: Message, s: seq<byte>, done: nat, chunkSize: nat)
    requires chunkSize > 0 && Whole(s) && HeaderSize(s[1]) + done <= |s|
    requires |m.payload| + PayloadLength(s) < U64 && Covered(m, s, done, chunkSize)
    requires CheckedPart(m, s, done) == Utf8.Failed
    ensures Counts(m, s, chunkSize)
  {
    hide CheckedPart, Gathering.ChunkFits;
    forall d: nat | d >= done && Asked(m, s, d, chunkSize)
      ensures false
    {
      StaysFailed(m, s, done, d);
    }
  }

  /** Nothing is asked for behind a read that is still waiting. */
  lemma WaitingCounts(m: Message, s: seq<byte>, done: nat, chunkSize: nat)
    requires chunkSize > 0 && Whole(s) && !Complete(s) && HeaderSize(s[1]) + done <= |s|
    requires |m.payload| + PayloadLength(s) < U64 && Covered(m, s, done, chunkSize)
    requires Gathering.ChunkFits(|m.payload| + done, chunkSize)
    requires done + Schedule.NextRead(|m.payload| + done, |m.payload| + PayloadLength(s), chunkSize)
             > |s| - HeaderSize(s[1])
    ensures Counts(m, s, chunkSize)
  {
    Schedule.NextIsCut(|m.payload| + done, |m.payload| + PayloadLength(s), chunkSize);
    hide CheckedPart, Gathering.ChunkFits, Schedule.NextRead, HeaderSize, PayloadLength;
    var amount := Schedule.NextRead(|m.payload| + done, |m.payload| + PayloadLength(s), chunkSize);
    CoveredNext(m, s, done, amount, chunkSize);
  }

  lemma NotAccepted(m: Message, s: seq<byte>)
    requires DataAhead(m, s) && Complete(s)
    requires CheckedPart(m, s, PayloadLength(s)) == Utf8.Failed
             || (Fin(s[0]) && CheckedPart(m, s, PayloadLength(s)) != Utf8.START)
    ensures !Accepts(m, s)
  {
    DataBinary(m, s, PayloadLength(s));
    WholePlain(s);
    CheckedText(m.text, ReadsAsBinary(s[0]), PlainPart(s, PayloadLength(s)));
    hide HeadCode, PlainPart, Unmask, Payload, Utf8.Consume, Utf8.WellFormed, Utf8.Extendable, ReadsAsBinary;
  }

  /** A frame that has been refused is not at fault. */
  lemma RefusedNoFault(m: Message, s: seq<byte>, done: nat, chunkSize: uint64)
    requires chunkSize > 0 && DataAhead(m, s) && HeaderSize(s[1]) + done <= |s| && done <= PayloadLength(s)
    requires |m.payload| + PayloadLength(s) < U64 && Covered(m, s, done, chunkSize)
    requires CheckedPart(m, s, done) == Utf8.Failed
             || (Fin(s[0]) && done == PayloadLength(s) && CheckedPart(m, s, done) != Utf8.START)
    ensures FirstFault(m, s, chunkSize) == NoFault
  {
    hide HeadCode, CheckedPart, Accepts, IsControl, Opcode, Covered, FirstFault;
    if CheckedPart(m, s, done) == Utf8.Failed {
      RefusedCounts(m, s, done, chunkSize);
      if Complete(s) {
        StaysFailed(m, s, done, PayloadLength(s));
      }
    }
    if Complete(s) {
      NotAccepted(m, s);
    }
    DataCounts(m, s, chunkSize);
  }

  // ---------------------------------------------------------------------------
  // Which streams have no fault
  // ---------------------------------------------------------------------------

  /** No message, as far as its frames are accepted, is announced with 2^64 bytes or more. */
  ghost predicate Announced(m: Message, s: seq<byte>)
    decreases |s|
  {
    Whole(s) && HeadCode(m, s) == 0 ==>
      && (!IsControl(Opcode(s[0])) ==> |m.payload| + PayloadLength(s) < U64)
      && if !Complete(s) then true
         else
           FrontFrame(s);
           var step := FrameStep(m, s[..FrameSize(s)]);
           step.Go? ==> Announced(step.message, s[FrameSize(s)..])
  }

  lemma PayloadGrows(m: Message, f: seq<byte>)
    requires Complete(f)
    ensures FrameStep(m, f).Go? ==> |FrameStep(m, f).message.payload| <= |m.payload| + PayloadLength(f)
  {}

  lemma SmallFits(at: nat, chunkSize: nat)
    requires chunkSize > 0 && at + chunkSize < U64
    ensures Gathering.ChunkFits(at, chunkSize)
  {
    var q := at / chunkSize;
    Divide(at, chunkSize);
    Schedule.Bounds(q, chunkSize);
  }

  /** With what has arrived a chunk short of 2^64, only the announced total can be at fault. */
  lemma SmallFrame(m: Message, s: seq<byte>, chunkSize: uint64)
    requires chunkSize > 0 && |m.payload| + |s| + chunkSize <= U64
    ensures Faulty(m, s, chunkSize) <==>
            && Whole(s) && HeadCode(m, s) == 0 && !IsControl(Opcode(s[0]))
            && |m.payload| + PayloadLength(s) >= U64
  {
    hide HeadCode, CheckedPart, Gathering.ChunkFits, IsControl, Opcode, PayloadLength, Accepts;
    if Whole(s) {
      forall d: nat | Asked(m, s, d, chunkSize)
        ensures Gathering.ChunkFits(|m.payload| + d, chunkSize)
      {
        SmallFits(|m.payload| + d, chunkSize);
      }
    }
  }

  lemma AnnouncedNext(m: Message, s: seq<byte>)
    requires Complete(s) && HeadCode(m, s) == 0 && |m.payload| + |s| < U64
    ensures Complete(s[..FrameSize(s)])
    ensures var step := FrameStep(m, s[..FrameSize(s)]);
            && (Announced(m, s) <==> (step.Go? ==> Announced(step.message, s[FrameSize(s)..])))
            && (step.Go? ==> |step.message.payload| + |s[FrameSize(s)..]| <= |m.payload| + |s|)
  {
    FrontFrame(s);
    PayloadGrows(m, s[..FrameSize(s)]);
    hide HeadCode, FrameStep;
  }

  /** A stream that is a chunk short of 2^64 has a fault only if it announces a total of 2^64; if it consists of whole
      frames it has none. */
  lemma {:induction false} ShortIsSound(m: Message, s: seq<byte>, chunkSize: uint64)
    requires chunkSize > 0 && |m.payload| + |s| + chunkSize <= U64
    ensures FirstFault(m, s, chunkSize) == NoFault <==> Announced(m, s)
    ensures Frames(s) ==> FirstFault(m, s, chunkSize) == NoFault
    decreases |s|
  {
    SmallFrame(m, s, chunkSize);
    hide Faulty, HeadCode, FrameStep;
    if Complete(s) {
      SameStep(m, s);
      if HeadCode(m, s) == 0 {
        AnnouncedNext(m, s);
        var step := FrameStep(m, s[..FrameSize(s)]);
        if step.Go? {
          ShortIsSound(step.message, s[FrameSize(s)..], chunkSize);
        }
      }
    }
  }

  lemma AcceptedPart(m: Message, s: seq<byte>, done: nat)
    requires DataAhead(m, s) && Complete(s) && Accepts(m, s) && done <= PayloadLength(s)
    ensures CheckedPart(m, s, done) != Utf8.Failed
  {
    hide HeadCode, CheckedPart, Accepts, IsControl, Opcode;
    if CheckedPart(m, s, done) == Utf8.Failed {
      StaysFailed(m, s, done, PayloadLength(s));
      NotAccepted(m, s);
    }
  }

  /** The chunk that ends at 2^64. */
  lemma LastChunk(chunkSize: uint64)
    requires chunkSize > 0 && U64 % chunkSize == 0
    ensures (U64 - chunkSize) % chunkSize == 0 && !Gathering.ChunkFits(U64 - chunkSize, chunkSize)
  {
    var q, r := Divided(U64, chunkSize);
    Schedule.Bounds(q - 1, chunkSize);
    Quotient(U64 - chunkSize, chunkSize, q - 1, 0);
  }

  lemma ShortCounts(m: Message, s: seq<byte>, chunkSize: uint64)
    requires chunkSize > 0 && Whole(s) && |m.payload| + PayloadLength(s) + chunkSize <= U64
    ensures Counts(m, s, chunkSize) && Gathering.Closable(|m.payload| + PayloadLength(s), chunkSize)
  {
    hide CheckedPart, PayloadLength, Gathering.ChunkFits;
    forall d: nat | Asked(m, s, d, chunkSize)
      ensures Gathering.ChunkFits(|m.payload| + d, chunkSize)
    {
      SmallFits(|m.payload| + d, chunkSize);
    }
  }

  lemma Arrived(m: Message, s: seq<byte>, done: nat)
    requires DataAhead(m, s) && Complete(s) && done < PayloadLength(s)
    ensures Whole(s) && HeaderSize(s[1]) + done <= |s|
    ensures HeadCode(m, s) == 0 && !IsControl(Opcode(s[0]))
  {}

  lemma AskedHere(m: Message, s: seq<byte>, done: nat, at: nat, chunkSize: nat)
    requires chunkSize > 0 && Whole(s) && HeaderSize(s[1]) + done <= |s| && done < PayloadLength(s)
    requires at == |m.payload| + done && at % chunkSize == 0 && CheckedPart(m, s, done) != Utf8.Failed
    ensures Asked(m, s, done, chunkSize)
  {
    hide CheckedPart, HeaderSize, PayloadLength;
  }

  /** An accepted frame that goes on into a chunk that does not end below 2^64. */
  lemma LongFails(m: Message, s: seq<byte>, at: nat, chunkSize: uint64)
    requires chunkSize > 0 && DataAhead(m, s) && Complete(s) && Accepts(m, s)
    requires |m.payload| <= at < |m.payload| + PayloadLength(s)
    requires at % chunkSize == 0 && !Gathering.ChunkFits(at, chunkSize)
    ensures Faulty(m, s, chunkSize)
  {
    hide *;
    var done := at - |m.payload|;
    Arrived(m, s, done);
    AcceptedPart(m, s, done);
    AskedHere(m, s, done, at, chunkSize);
    AskAtFault(m, s, done, chunkSize);
  }

  lemma NotClosable(m: Message, s: seq<byte>, chunkSize: uint64)
    requires chunkSize > 0 && DataAhead(m, s) && Complete(s) && Fin(s[0]) && Accepts(m, s)
    requires !Gathering.Closable(|m.payload| + PayloadLength(s), chunkSize)
    ensures Faulty(m, s, chunkSize)
  {}

  lemma NoWayToClose(total: nat, chunkSize: uint64)
    requires chunkSize > 0 && total + chunkSize > U64 && U64 % chunkSize != 0
    ensures !Gathering.Closable(total, chunkSize)
  {}

  /** A message that has arrived as a whole and is accepted has its fault, if it was without one so far, exactly when
      its size and a chunk together are more than 2^64. */
  lemma FinalFaulty(m: Message, s: seq<byte>, chunkSize: uint64)
    requires chunkSize > 0 && |m.payload| + chunkSize <= U64
    requires DataAhead(m, s) && Complete(s) && Fin(s[0]) && Accepts(m, s)
    ensures Faulty(m, s, chunkSize) <==> |m.payload| + PayloadLength(s) + chunkSize > U64
  {
    var total := |m.payload| + PayloadLength(s);
    if total + chunkSize <= U64 {
      ShortCounts(m, s, chunkSize);
      assert !Faulty(m, s, chunkSize) by {
        hide HeadCode, IsControl, Opcode, PayloadLength, Accepts, Counts;
      }
    } else {
      hide *;
      if U64 % chunkSize != 0 {
        assert !Gathering.Closable(total, chunkSize) by {
          NoWayToClose(total, chunkSize);
        }
        NotClosable(m, s, chunkSize);
      } else {
        LastChunk(chunkSize);
        LongFails(m, s, U64 - chunkSize, chunkSize);
      }
    }
  }

  // ---------------------------------------------------------------------------
  // Two faults
  // ---------------------------------------------------------------------------

  /** A frame of 2^64 - 1 bytes in chunks of 1024: the last read is of 1023 bytes, but the code asks for 1024. */
  lemma LastReadTooLong()
    ensures var consumed, total := U64 - 1024, U64 - 1;
            && !Gathering.ChunkFits(consumed, 1024)
            && Schedule.NextRead(consumed, total, 1024) == 1023
            && Gathering.Ask(consumed, total, U64 % U64) == 1024
  {
    LastChunk(1024);
  }

  lemma {:induction false} AllOnes(n: nat, s: seq<byte>)
    requires |s| == n && forall i :: 0 <= i < n ==> s[i] == 0xFF
    ensures BigEndian(s) == Power256(n) - 1
  {
    if n > 0 {
      AllOnes(n - 1, s[..n - 1]);
      assert (0xFF as byte) as int == 255;
    }
  }

  /** A fragment of one byte. */
  const FRAGMENT: seq<byte> := [0x01, 0x01, 0x61]

  /** The header of a last fragment of 2^64 - 1 bytes. */
  const LONG_HEADER: seq<byte> := [0x80, 0x7F, 0xFF, 0xFF, 0xFF, 0xFF, 0xFF, 0xFF, 0xFF, 0xFF]

  lemma FragmentHead()
    ensures Frame(FRAGMENT) && ParseHead(FRAGMENT) == Head(false, TEXT, ZERO_KEY, 1) && Payload(FRAGMENT) == [0x61]
    ensures HeadCode(IDLE, FRAGMENT) == 0
  {
    assert (0x01 as byte) as int == 1;
  }

  lemma FragmentStep()
    ensures Complete(FRAGMENT) && FrameStep(IDLE, FRAGMENT) == Go([], Message(true, [0x61], [0x61]))
  {
    FragmentHead();
    hide HeadCode, Frame, Whole, Payload, Utf8.Extendable, Utf8.WellFormed;
    UnmaskZero([0x61], 0);
    Utf8.ConsumeOne(Utf8.START, 0x61);
    Utf8.NotFailedIffExtendable([0x61]);
    Units([0x61]);
  }

  lemma LongHeaderHead()
    ensures Whole(LONG_HEADER) && ParseHead(LONG_HEADER) == Head(true, CONTINUATION, ZERO_KEY, U64 - 1)
    ensures HeadCode(Message(true, [0x61], [0x61]), LONG_HEADER) == 0
  {
    AllOnes(8, LONG_HEADER[2..10]);
    PowerValues();
    hide BigEndian, Power256;
  }

  lemma FragmentSize()
    ensures |FRAGMENT| == 3
  {}

  lemma LongHeaderAtFault(m: Message, chunkSize: uint64)
    requires chunkSize > 0 && |m.payload| == 1 && Whole(LONG_HEADER) && HeadCode(m, LONG_HEADER) == 0
    requires ParseHead(LONG_HEADER) == Head(true, CONTINUATION, ZERO_KEY, U64 - 1)
    ensures FirstFault(m, LONG_HEADER, chunkSize) == FaultAt(m, LONG_HEADER)
  {
    hide HeadCode, FirstFault;
    TotalAtFault(m, LONG_HEADER, chunkSize);
  }

  lemma ZeroTotal(size: uint64)
    ensures Gathering.Add64(1, U64 - 1) == 0 && Gathering.Ask(1, 0, size) == U64 - 1
  {}

  lemma FragmentCounts(s: seq<byte>, chunkSize: uint64)
    requires chunkSize > 0 && |s| >= 3 && s[..3] == FRAGMENT
    ensures Complete(s) && FrameSize(s) == 3 && !Faulty(IDLE, s, chunkSize)
  {
    FragmentHead();
    ParsePrefix(FRAGMENT, s[3..]);
    Front(s, 3, 0);
    assert s[0] == s[..3][0] && s[1] == s[..3][1];
    hide HeadCode;
    ShortCounts(IDLE, s, chunkSize);
  }

  lemma NextFault(m: Message, s: seq<byte>, chunkSize: uint64)
    requires chunkSize > 0 && Complete(s) && !Faulty(m, s, chunkSize)
    requires Complete(s[..FrameSize(s)]) && FrameStep(m, s[..FrameSize(s)]).Go?
    ensures FirstFault(m, s, chunkSize) ==
            FirstFault(FrameStep(m, s[..FrameSize(s)]).message, s[FrameSize(s)..], chunkSize)
  {
    hide Faulty, FrameStep;
  }

  lemma SoundUpTo(s: seq<byte>, n: nat, m: Message, chunkSize: uint64)
    requires chunkSize > 0 && n <= |s| && FirstFault(IDLE, s, chunkSize) == FaultAt(m, s[n..])
    ensures Sound(s, chunkSize) == s[..n]
  {
    hide FirstFault;
  }

  /** Thirteen bytes at which the total wraps around to zero: of what follows, the code wants to read 2^64 - 1 bytes,
      whatever the size of the buffer. */
  lemma TotalWraps(chunkSize: uint64, size: uint64)
    requires chunkSize > 0
    ensures FirstFault(IDLE, FRAGMENT + LONG_HEADER, chunkSize) ==
            FaultAt(Message(true, [0x61], [0x61]), LONG_HEADER)
    ensures Sound(FRAGMENT + LONG_HEADER, chunkSize) == FRAGMENT
    ensures Gathering.Add64(1, U64 - 1) == 0 && Gathering.Ask(1, 0, size) == U64 - 1
  {
    hide *;
    var s, next := FRAGMENT + LONG_HEADER, Message(true, [0x61], [0x61]);
    FragmentSize();
    Cut(s, FRAGMENT, LONG_HEADER);
    FragmentCounts(s, chunkSize);
    FragmentStep();
    LongHeaderHead();
    LongHeaderAtFault(next, chunkSize);
    NextFault(IDLE, s, chunkSize);
    SoundUpTo(s, 3, next, chunkSize);
    ZeroTotal(size);
  }
}
