/** The frames of the messages that a stream delivers, and the reads that their payloads are scheduled in. */
module Reads {
  import opened Bytes
  import opened FrameFormat
  import opened Controls
  import opened Decoder
  import opened Delivery
  import opened Faults
  import opened Progress
  import opened Schedule
  import opened Sequences
  import Utf8

  /** For each message that is delivered, the places in its payload where its reads end; `sizes` are the payload lengths
      of the frames of the message in progress. */
  ghost function DataReads(m: Message, sizes: seq<nat>, s: seq<byte>, chunkSize: nat): seq<seq<nat>>
    requires chunkSize > 0
    decreases |s|
  {
    if !Complete(s) then []
    else
      FrontFrame(s);
      var step, rest := FrameStep(m, s[..FrameSize(s)]), s[FrameSize(s)..];
      if step.Stop? then []
      else if IsControl(Opcode(s[0])) then DataReads(step.message, sizes, rest, chunkSize)
      else if Fin(s[0]) then
        [MessageReads(0, sizes + [PayloadLength(s)], chunkSize)] + DataReads(step.message, [], rest, chunkSize)
      else DataReads(step.message, sizes + [PayloadLength(s)], rest, chunkSize)
  }

  function DeliverCount(outcomes: seq<Outcome>): nat {
    if outcomes == [] then 0 else (if outcomes[0].Deliver? then 1 else 0) + DeliverCount(outcomes[1..])
  }

  lemma NoDelivery(outcomes: seq<Outcome>)
    requires outcomes == [] || (|outcomes| == 1 && !outcomes[0].Deliver?)
    ensures DeliverCount(outcomes) == 0
  {}

  lemma StepCount(outcome: Outcome, later: seq<Outcome>)
    ensures DeliverCount([outcome] + later) == (if outcome.Deliver? then 1 else 0) + DeliverCount(later)
    ensures DeliverCount([outcome]) == if outcome.Deliver? then 1 else 0
    ensures DeliverCount([] + later) == DeliverCount(later)
  {
    Cut([outcome] + later, [outcome], later);
    Units(later);
    assert [outcome][1..] == [];
  }

  lemma PartialCount(m: Message, s: seq<byte>, chunkSize: nat)
    requires chunkSize > 0 && !Complete(s)
    ensures DeliverCount(Partial(m, s, chunkSize)) == 0
  {
    hide HeadCode, ReadableCut, Unmask, Utf8.Extendable;
  }

  lemma OutcomesOf(m: Message, f: seq<byte>)
    requires Complete(f)
    ensures var step := FrameStep(m, f);
            if step.Stop? then !step.last.Deliver?
            else if !IsControl(Opcode(f[0])) && Fin(f[0]) then |step.outcomes| == 1 && step.outcomes[0].Deliver?
            else step.outcomes == [] || (|step.outcomes| == 1 && !step.outcomes[0].Deliver?)
  {}

  /** There are as many as there are deliveries. */
  lemma {:induction false} DataReadsCount(m: Message, sizes: seq<nat>, s: seq<byte>, chunkSize: nat)
    requires chunkSize > 0
    ensures |DataReads(m, sizes, s, chunkSize)| == DeliverCount(Decode(m, s, chunkSize))
    decreases |s|
  {
    hide FrameStep, Partial, DeliverCount, MessageReads;
    if !Complete(s) {
      PartialCount(m, s, chunkSize);
    } else {
      SameHead(m, s);
      var step, rest := FrameStep(m, s[..FrameSize(s)]), s[FrameSize(s)..];
      OutcomesOf(m, s[..FrameSize(s)]);
      if step.Stop? {
        StepCount(step.last, []);
      } else {
        var later := Decode(step.message, rest, chunkSize);
        assert step.outcomes == [] || step.outcomes == [step.outcomes[0]];
        StepCount(if step.outcomes == [] then Cancel(0) else step.outcomes[0], later);
        if IsControl(Opcode(s[0])) {
          DataReadsCount(step.message, sizes, rest, chunkSize);
        } else {
          DataReadsCount(step.message, if Fin(s[0]) then [] else sizes + [PayloadLength(s)], rest, chunkSize);
        }
      }
    }
  }

  /** The reads of the messages that have been delivered, continued with those that are still to come, are those of the
      whole stream. */
  ghost predicate ReadsOnTrack(input: seq<byte>, chunkSize: nat, ends: seq<seq<nat>>, m: Message, sizes: seq<nat>,
                               s: seq<byte>)
    requires chunkSize > 0
  {
    DataReads(IDLE, [], input, chunkSize) == ends + DataReads(m, sizes, s, chunkSize)
  }

  /** The log and the reads. */
  ghost predicate Tracks(input: seq<byte>, chunkSize: nat, log: seq<Event>, ends: seq<seq<nat>>, m: Message,
                         sizes: seq<nat>, s: seq<byte>)
    requires chunkSize > 0
  {
    OnTrack(input, chunkSize, log, m, s) && ReadsOnTrack(input, chunkSize, ends, m, sizes, s)
  }

  /** All of the stream has been decoded. */
  ghost predicate Ended(input: seq<byte>, chunkSize: nat, log: seq<Event>, ends: seq<seq<nat>>)
    requires chunkSize > 0
  {
    Finished(input, chunkSize, log) && DataReads(IDLE, [], input, chunkSize) == ends
  }

  lemma TracksBegin(input: seq<byte>, chunkSize: nat)
    requires chunkSize > 0
    ensures Tracks(input, chunkSize, [], [], IDLE, [], input)
  {
    hide OnTrack, DataReads;
    Begin(input, chunkSize);
    Units(DataReads(IDLE, [], input, chunkSize));
  }

  /** No message is delivered any more. */
  lemma ReadsEnd(input: seq<byte>, chunkSize: nat, ends: seq<seq<nat>>, m: Message, sizes: seq<nat>, s: seq<byte>)
    requires chunkSize > 0 && ReadsOnTrack(input, chunkSize, ends, m, sizes, s)
    requires var later := Decode(m, s, chunkSize); later == [] || (|later| == 1 && !later[0].Deliver?)
    ensures DataReads(IDLE, [], input, chunkSize) == ends
  {
    hide Decode, DataReads;
    NoDelivery(Decode(m, s, chunkSize));
    DataReadsCount(m, sizes, s, chunkSize);
    Units(ends);
  }

  lemma TracksEnd(input: seq<byte>, chunkSize: nat, log: seq<Event>, ends: seq<seq<nat>>, m: Message,
                  sizes: seq<nat>, s: seq<byte>, outcome: Outcome)
    requires chunkSize > 0 && Tracks(input, chunkSize, log, ends, m, sizes, s)
    requires Decode(m, s, chunkSize) == [outcome] && !outcome.Deliver?
    ensures Ended(input, chunkSize, log + Render(outcome, chunkSize), ends)
  {
    hide OnTrack, Finished, ReadsOnTrack, Decode, DataReads, Render;
    Finish(input, chunkSize, log, m, s, outcome);
    ReadsEnd(input, chunkSize, ends, m, sizes, s);
  }

  lemma TracksStuck(input: seq<byte>, chunkSize: nat, log: seq<Event>, ends: seq<seq<nat>>, m: Message,
                    sizes: seq<nat>, s: seq<byte>)
    requires chunkSize > 0 && Tracks(input, chunkSize, log, ends, m, sizes, s)
    requires Decode(m, s, chunkSize) == []
    ensures Ended(input, chunkSize, log, ends)
  {
    hide OnTrack, Finished, ReadsOnTrack, Decode, DataReads;
    Stuck(input, chunkSize, log, m, s);
    ReadsEnd(input, chunkSize, ends, m, sizes, s);
  }

  lemma ReadsControl(m: Message, sizes: seq<nat>, s: seq<byte>, chunkSize: nat)
    requires chunkSize > 0 && Complete(s) && HeadCode(m, s) == 0 && IsControl(Opcode(s[0]))
    requires var answer := Response(s[0], s[1], MaskingKey(s), Payload(s)); answer.Reply? || answer.Silence?
    ensures DataReads(m, sizes, s, chunkSize) == DataReads(m, sizes, s[FrameSize(s)..], chunkSize)
  {
    FrontFrame(s);
    SameHead(m, s);
    hide HeadCode, Response, MessageReads;
  }

  /** A control frame that leads on to the next frame. */
  lemma ControlTracks(input: seq<byte>, chunkSize: uint64, log: seq<Event>, ends: seq<seq<nat>>, m: Message,
                      sizes: seq<nat>, s: seq<byte>)
    requires chunkSize > 0 && Tracks(input, chunkSize, log, ends, m, sizes, s)
    requires Complete(s) && HeadCode(m, s) == 0 && IsControl(Opcode(s[0]))
    ensures var answer, rest := Response(s[0], s[1], MaskingKey(s), Payload(s)), s[FrameSize(s)..];
            && (answer.Reject? ==> answer.code == 1007 && Decode(m, s, chunkSize) == [Cancel(1007)])
            && (answer.Goodbye? ==> Ended(input, chunkSize, log + [WrittenLast(answer.reply)], ends))
            && (answer.Reply? ==> Tracks(input, chunkSize, log + [Written(answer.reply)], ends, m, sizes, rest))
            && (answer.Silence? ==> Tracks(input, chunkSize, log, ends, m, sizes, rest))
            && FirstFault(m, s, chunkSize) ==
               if answer.Reply? || answer.Silence? then FirstFault(m, rest, chunkSize) else NoFault
  {
    ControlGoesOn(input, chunkSize, log, m, s);
    ControlFrame(m, s, chunkSize);
    hide HeadCode, Response, IsControl, Opcode, OnTrack, Finished, FirstFault, Decode, DataReads, Payload, MaskingKey;
    var answer := Response(s[0], s[1], MaskingKey(s), Payload(s));
    if answer.Reply? || answer.Silence? {
      ReadsControl(m, sizes, s, chunkSize);
    } else if answer.Goodbye? {
      ReadsEnd(input, chunkSize, ends, m, sizes, s);
    }
  }

  lemma ReadsData(m: Message, sizes: seq<nat>, s: seq<byte>, chunkSize: nat)
    requires chunkSize > 0 && Complete(s) && HeadCode(m, s) == 0 && !IsControl(Opcode(s[0])) && Accepts(m, s)
    ensures var all, rest := sizes + [PayloadLength(s)], s[FrameSize(s)..];
            DataReads(m, sizes, s, chunkSize) ==
            if Fin(s[0]) then [MessageReads(0, all, chunkSize)] + DataReads(IDLE, [], rest, chunkSize)
            else DataReads(NextMessage(m, s), all, rest, chunkSize)
  {
    SameStep(m, s);
    WholePlain(s);
    hide HeadCode, FrameStep, Unmask, IsControl, Opcode, PayloadLength, MessageReads;
  }

  /** Behind a data frame that is accepted. */
  lemma DataTracks(input: seq<byte>, chunkSize: uint64, log: seq<Event>, ends: seq<seq<nat>>, m: Message,
                   sizes: seq<nat>, s: seq<byte>)
    requires chunkSize > 0 && Tracks(input, chunkSize, log, ends, m, sizes, s)
    requires DataAhead(m, s) && Complete(s)
    requires CheckedPart(m, s, PayloadLength(s)) != Utf8.Failed
    requires Fin(s[0]) ==> CheckedPart(m, s, PayloadLength(s)) == Utf8.START
    ensures var next, rest, all := NextMessage(m, s), s[FrameSize(s)..], sizes + [PayloadLength(s)];
            && CheckedPart(m, s, PayloadLength(s)) == Utf8.Consume(Utf8.START, next.text)
            && next.open == !Fin(s[0]) && next.payload == m.payload + PlainPart(s, PayloadLength(s))
            && if Fin(s[0]) then
                 Tracks(input, chunkSize, log + Render(Deliver(ReadsAsBinary(s[0]), next.payload), chunkSize),
                        ends + [MessageReads(0, all, chunkSize)], IDLE, [], rest)
               else Tracks(input, chunkSize, log, ends, next, all, rest)
  {
    DataAccepted(input, chunkSize, log, m, s);
    ReadsData(m, sizes, s, chunkSize);
    hide Complete, HeadCode, IsControl, Opcode, OnTrack, DataReads, CheckedPart, PlainPart, Utf8.Consume, Render,
      MessageReads, NextMessage, Accepts, Counts, FirstFault, ReadsAsBinary, Fin;
    if Fin(s[0]) {
      Associative(ends, [MessageReads(0, sizes + [PayloadLength(s)], chunkSize)],
                  DataReads(IDLE, [], s[FrameSize(s)..], chunkSize));
    }
  }

  /** As with the outcomes: before the frame at fault, everything is as if the stream ended there. */
  ghost predicate ReadsSplit(m: Message, sizes: seq<nat>, s: seq<byte>, k: nat, next: Message, now: seq<nat>,
                             rest: seq<byte>, chunkSize: nat)
    requires chunkSize > 0 && k <= |s|
  {
    DataReads(m, sizes, s, chunkSize) == DataReads(m, sizes, s[..k], chunkSize) + DataReads(next, now, rest, chunkSize)
  }

  lemma ReadsSplitHere(m: Message, sizes: seq<nat>, s: seq<byte>, chunkSize: nat)
    requires chunkSize > 0
    ensures ReadsSplit(m, sizes, s, 0, m, sizes, s, chunkSize)
  {
    assert s[..0] == [] && DataReads(m, sizes, [], chunkSize) == [];
    hide DataReads;
    Units(DataReads(m, sizes, s, chunkSize));
  }

  /** A whole frame in front. */
  lemma ReadsFrame(m: Message, sizes: seq<nat>, f: seq<byte>, rest: seq<byte>, chunkSize: nat)
    requires chunkSize > 0 && Frame(f) && FrameStep(m, f).Go?
    ensures var next, all := FrameStep(m, f).message, sizes + [PayloadLength(f)];
            DataReads(m, sizes, f + rest, chunkSize) ==
            if IsControl(Opcode(f[0])) then DataReads(next, sizes, rest, chunkSize)
            else if Fin(f[0]) then [MessageReads(0, all, chunkSize)] + DataReads(next, [], rest, chunkSize)
            else DataReads(next, all, rest, chunkSize)
  {
    ParsePrefix(f, rest);
    Cut(f + rest, f, rest);
    assert (f + rest)[0] == f[0];
    hide FrameStep, MessageReads;
  }

  /** The payload sizes behind a frame. */
  function Later(sizes: seq<nat>, s: seq<byte>): seq<nat>
    requires Whole(s)
  {
    if IsControl(Opcode(s[0])) then sizes else if Fin(s[0]) then [] else sizes + [PayloadLength(s)]
  }

  lemma ReadsSplitBehind(m: Message, sizes: seq<nat>, s: seq<byte>, k: nat, next: Message, now: seq<nat>,
                         last: seq<byte>, chunkSize: nat)
    requires chunkSize > 0 && Complete(s) && FrameSize(s) + k <= |s|
    requires Frame(s[..FrameSize(s)]) && FrameStep(m, s[..FrameSize(s)]).Go?
    requires ReadsSplit(FrameStep(m, s[..FrameSize(s)]).message, Later(sizes, s), s[FrameSize(s)..], k, next, now, last,
                        chunkSize)
    ensures ReadsSplit(m, sizes, s, FrameSize(s) + k, next, now, last, chunkSize)
  {
    hide DataReads, FrameStep, IsControl, Opcode, Fin, MessageReads;
    FrontFrame(s);
    var f, rest := s[..FrameSize(s)], s[FrameSize(s)..];
    var step := FrameStep(m, f);
    assert f[0] == s[0];
    Front(s, FrameSize(s), k);
    ReadsFrame(m, sizes, f, rest, chunkSize);
    ReadsFrame(m, sizes, f, rest[..k], chunkSize);
    Associative([MessageReads(0, sizes + [PayloadLength(f)], chunkSize)],
                DataReads(step.message, Later(sizes, s), rest[..k], chunkSize), DataReads(next, now, last, chunkSize));
  }

  lemma {:induction false} FaultSplitsReads(m: Message, sizes: seq<nat>, s: seq<byte>, chunkSize: uint64)
    returns (now: seq<nat>)
    requires chunkSize > 0 && FirstFault(m, s, chunkSize).FaultAt?
    ensures var fault := FirstFault(m, s, chunkSize);
            && |fault.rest| <= |s|
            && ReadsSplit(m, sizes, s, |s| - |fault.rest|, fault.message, now, fault.rest, chunkSize)
    decreases |s|
  {
    hide *;
    var fault := FirstFault(m, s, chunkSize);
    if Faulty(m, s, chunkSize) {
      FaultHere(m, s, chunkSize);
      ReadsSplitHere(m, sizes, s, chunkSize);
      now := sizes;
    } else {
      FaultBehind(m, s, chunkSize);
      var step, rest := FrameStep(m, s[..FrameSize(s)]), s[FrameSize(s)..];
      now := FaultSplitsReads(step.message, Later(sizes, s), rest, chunkSize);
      ReadsSplitBehind(m, sizes, s, |rest| - |fault.rest|, fault.message, now, fault.rest, chunkSize);
    }
  }

  lemma ReadsStop(input: seq<byte>, chunkSize: uint64, ends: seq<seq<nat>>, m: Message, sizes: seq<nat>, s: seq<byte>)
    requires chunkSize > 0 && ReadsOnTrack(input, chunkSize, ends, m, sizes, s)
    requires FirstFault(IDLE, input, chunkSize) == FaultAt(m, s)
    ensures DataReads(IDLE, [], Sound(input, chunkSize), chunkSize) == ends
  {
    hide DataReads, FirstFault, Decode, Faulty;
    var now := FaultSplitsReads(IDLE, [], input, chunkSize);
    DataReadsCount(m, sizes, s, chunkSize);
    DataReadsCount(m, now, s, chunkSize);
    SameLengths(ends, DataReads(IDLE, [], Sound(input, chunkSize), chunkSize), DataReads(m, sizes, s, chunkSize),
                DataReads(m, now, s, chunkSize));
  }

  /** At the first frame at fault, the log and the reads are those of the stream up to there. */
  lemma TracksStop(input: seq<byte>, chunkSize: uint64, log: seq<Event>, ends: seq<seq<nat>>, m: Message,
                   sizes: seq<nat>, s: seq<byte>)
    requires chunkSize > 0 && Tracks(input, chunkSize, log, ends, m, sizes, s)
    requires FirstFault(IDLE, input, chunkSize) == FaultAt(m, s)
    ensures Sound(input, chunkSize) != input && Ended(Sound(input, chunkSize), chunkSize, log, ends)
  {
    hide DataReads, FirstFault, OnTrack, Decode, RenderAll, Faulty, Sound, ReadsOnTrack;
    StoppedAt(input, chunkSize, log, m, s);
    ReadsStop(input, chunkSize, ends, m, sizes, s);
  }
}
