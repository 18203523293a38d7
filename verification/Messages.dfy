/** Whole messages: the fragmentation rules of section 5.4 of RFC 6455, and what a message comes to whatever its
    fragments and masks. */
module Messages {
  import opened Bytes
  import opened FrameFormat
  import opened Controls
  import opened Decoder
  import opened Sequences
  import Utf8

  // ---------------------------------------------------------------------------
  // Section 5.4
  // ---------------------------------------------------------------------------

  datatype DataHead = DataHead(opcode: byte, fin: bool)

  /** The fragments of a message: only the first has a data opcode, and only the last may have FIN set. */
  predicate Fragments(fs: seq<DataHead>) {
    && fs != []
    && fs[0].opcode != CONTINUATION
    && (forall i :: 0 < i < |fs| ==> fs[i].opcode == CONTINUATION)
    && (forall i :: 0 <= i < |fs| - 1 ==> !fs[i].fin)
  }

  /** Whole messages, and then the beginning of another one if `open`. */
  ghost predicate Fragmentation(fs: seq<DataHead>, open: bool)
    decreases |fs|
  {
    if fs == [] then !open
    else
      || (open && Fragments(fs) && !fs[|fs| - 1].fin)
      || (exists n: nat :: 0 < n <= |fs| && Fragments(fs[..n]) && fs[n - 1].fin && Fragmentation(fs[n..], open))
  }

  /** Whether a message is open after `fs`, if none or one (`open`) was before; nothing if `fs` breaks the rules. */
  function Track(open: bool, fs: seq<DataHead>): Option<bool>
    decreases |fs|
  {
    if fs == [] then Some(open)
    else if open != (fs[0].opcode == CONTINUATION) then None
    else Track(!fs[0].fin, fs[1..])
  }

  lemma {:induction false} TrackConcat(open: bool, fs: seq<DataHead>, gs: seq<DataHead>)
    ensures Track(open, fs + gs) == if Track(open, fs).Some? then Track(Track(open, fs).value, gs) else None
    decreases |fs|
  {
    if fs == [] {
      assert fs + gs == gs;
    } else {
      assert (fs + gs)[1..] == fs[1..] + gs;
      TrackConcat(!fs[0].fin, fs[1..], gs);
    }
  }

  lemma {:induction false} TrackContinuations(fs: seq<DataHead>)
    requires fs != []
    requires forall i :: 0 <= i < |fs| ==> fs[i].opcode == CONTINUATION
    requires forall i :: 0 <= i < |fs| - 1 ==> !fs[i].fin
    ensures Track(true, fs) == Some(!fs[|fs| - 1].fin)
  {
    if |fs| == 1 {
    } else {
      TrackContinuations(fs[1..]);
    }
  }

  lemma TrackFragments(fs: seq<DataHead>)
    requires Fragments(fs)
    ensures Track(false, fs) == Some(!fs[|fs| - 1].fin)
  {
    if |fs| > 1 {
      TrackContinuations(fs[1..]);
    }
  }

  lemma TrackNone(open: bool)
    ensures Track(open, []) == Some(open)
  {}

  lemma FirstMessage(fs: seq<DataHead>, n: nat, open: bool)
    requires 0 < n <= |fs| && Fragments(fs[..n]) && fs[n - 1].fin && Track(false, fs[n..]) == Some(open)
    ensures Track(false, fs) == Some(open)
  {
    hide Track, Fragments;
    TrackFragments(fs[..n]);
    assert fs == fs[..n] + fs[n..];
    TrackConcat(false, fs[..n], fs[n..]);
  }

  lemma {:induction false} FragmentationTracked(fs: seq<DataHead>, open: bool)
    requires Fragmentation(fs, open)
    ensures Track(false, fs) == Some(open)
    decreases |fs|
  {
    hide Track, Fragments;
    if fs == [] {
      TrackNone(false);
    } else if open && Fragments(fs) && !fs[|fs| - 1].fin {
      TrackFragments(fs);
    } else {
      var n: nat :| 0 < n <= |fs| && Fragments(fs[..n]) && fs[n - 1].fin && Fragmentation(fs[n..], open);
      FragmentationTracked(fs[n..], open);
      FirstMessage(fs, n, open);
    }
  }

  /** Where the open message that `fs` continues ends, if it does. */
  lemma {:induction false} FirstFin(fs: seq<DataHead>, open: bool) returns (n: nat)
    requires Track(true, fs) == Some(open)
    ensures n <= |fs|
    ensures forall i :: 0 <= i < n ==> fs[i].opcode == CONTINUATION
    ensures forall i :: 0 <= i < n - 1 ==> !fs[i].fin
    ensures (n > 0 && fs[n - 1].fin && Track(false, fs[n..]) == Some(open))
            || (n == |fs| && open && (n > 0 ==> !fs[n - 1].fin))
  {
    if fs == [] {
      n := 0;
    } else if fs[0].fin {
      n := 1;
    } else {
      var k := FirstFin(fs[1..], open);
      n := k + 1;
      assert fs[1..][k..] == fs[n..];
      assert forall i :: 0 < i < n ==> fs[i] == fs[1..][i - 1];
    }
  }

  lemma {:induction false} TrackedFragmentation(fs: seq<DataHead>, open: bool)
    requires Track(false, fs) == Some(open)
    ensures Fragmentation(fs, open)
    decreases |fs|
  {
    if fs == [] {
    } else {
      var n := 1;
      if !fs[0].fin {
        var k := FirstFin(fs[1..], open);
        n := k + 1;
        assert fs[1..][k..] == fs[n..];
        assert forall i :: 0 < i < n ==> fs[i] == fs[1..][i - 1];
      }
      assert Fragments(fs[..n]);
      if fs[n - 1].fin {
        TrackedFragmentation(fs[n..], open);
      } else {
        assert fs[..n] == fs;
      }
    }
  }

  /** The data frames that are accepted on the way through a stream. */
  ghost function Accepted(m: Message, s: seq<byte>): seq<DataHead>
    decreases |s|
  {
    if !Complete(s) then []
    else
      FrontFrame(s);
      var n := FrameSize(s);
      var step := FrameStep(m, s[..n]);
      if step.Stop? then []
      else
        (if IsControl(Opcode(s[0])) then [] else [DataHead(Opcode(s[0]), Fin(s[0]))]) + Accepted(step.message, s[n..])
  }

  /** The message in progress after a stream of whole frames, if every one of them is accepted. */
  ghost function After(m: Message, s: seq<byte>): Option<Message>
    decreases |s|
  {
    if !Complete(s) then Some(m)
    else
      FrontFrame(s);
      var n := FrameSize(s);
      var step := FrameStep(m, s[..n]);
      if step.Stop? then None else After(step.message, s[n..])
  }

  lemma AcceptedStep(m: Message, f: seq<byte>)
    requires Complete(f) && FrameStep(m, f).Go?
    ensures var next := FrameStep(m, f).message;
            if IsControl(Opcode(f[0])) then next == m
            else m.open == (Opcode(f[0]) == CONTINUATION) && next.open == !Fin(f[0])
  {}

  lemma AcceptedNext(m: Message, s: seq<byte>)
    requires Complete(s) && Complete(s[..FrameSize(s)]) && FrameStep(m, s[..FrameSize(s)]).Go?
    ensures var next, rest := FrameStep(m, s[..FrameSize(s)]).message, s[FrameSize(s)..];
            && After(m, s) == After(next, rest)
            && if IsControl(Opcode(s[0])) then next == m && Accepted(m, s) == Accepted(next, rest)
               else
                 && m.open == (Opcode(s[0]) == CONTINUATION) && next.open == !Fin(s[0])
                 && Accepted(m, s) == [DataHead(Opcode(s[0]), Fin(s[0]))] + Accepted(next, rest)
  {
    FrontFrame(s);
    var f := s[..FrameSize(s)];
    assert f[0] == s[0];
    AcceptedStep(m, f);
  }

  lemma TrackFirst(open: bool, h: DataHead, fs: seq<DataHead>)
    requires open == (h.opcode == CONTINUATION)
    ensures Track(open, [h] + fs) == Track(!h.fin, fs)
  {
    assert ([h] + fs)[1..] == fs;
  }

  lemma {:induction false} AcceptedTracked(m: Message, s: seq<byte>)
    ensures Track(m.open, Accepted(m, s)).Some?
    ensures After(m, s).Some? ==> Track(m.open, Accepted(m, s)) == Some(After(m, s).value.open)
    decreases |s|
  {
    if !Complete(s) {
    } else {
      FrontFrame(s);
      var step := FrameStep(m, s[..FrameSize(s)]);
      if step.Go? {
        var rest := s[FrameSize(s)..];
        AcceptedNext(m, s);
        hide FrameStep, Accepted, After, IsControl, Opcode, Fin;
        AcceptedTracked(step.message, rest);
        if !IsControl(Opcode(s[0])) {
          TrackFirst(m.open, DataHead(Opcode(s[0]), Fin(s[0])), Accepted(step.message, rest));
        }
      }
    }
  }

  lemma DataHeadCode(m: Message, f: seq<byte>)
    requires Whole(f) && Defined(f[0], 0) && !IsControl(Opcode(f[0]))
    ensures HeadCode(m, f) == 0 <==> m.open == (Opcode(f[0]) == CONTINUATION)
  {}

  /** What may follow the fragments so far. */
  lemma FragmentationNext(fs: seq<DataHead>, open: bool, h: DataHead)
    requires Track(false, fs) == Some(open)
    ensures (exists after: bool :: Fragmentation(fs + [h], after)) <==> open == (h.opcode == CONTINUATION)
  {
    TrackConcat(false, fs, [h]);
    assert Track(open, [h]) == if open == (h.opcode == CONTINUATION) then Some(!h.fin) else None;
    if open == (h.opcode == CONTINUATION) {
      var after := !h.fin;
      TrackedFragmentation(fs + [h], after);
      assert Fragmentation(fs + [h], after);
    } else {
      forall after: bool
        ensures !Fragmentation(fs + [h], after)
      {
        if Fragmentation(fs + [h], after) {
          FragmentationTracked(fs + [h], after);
        }
      }
    }
  }

  /** Over every stream the accepted data frames obey section 5.4, and a message is open exactly when they end in an
      unfinished one. */
  lemma FragmentationKept(s: seq<byte>)
    ensures exists open: bool :: Fragmentation(Accepted(IDLE, s), open)
    ensures After(IDLE, s).Some? ==> Fragmentation(Accepted(IDLE, s), After(IDLE, s).value.open)
  {
    AcceptedTracked(IDLE, s);
    TrackedFragmentation(Accepted(IDLE, s), Track(false, Accepted(IDLE, s)).value);
  }

  /** After every stream that is accepted so far, the header of a data frame with a defined opcode is accepted exactly
      when section 5.4 allows such a frame there. */
  lemma FragmentationExact(s: seq<byte>, f: seq<byte>)
    requires After(IDLE, s).Some?
    requires Whole(f) && Defined(f[0], 0) && !IsControl(Opcode(f[0]))
    ensures HeadCode(After(IDLE, s).value, f) == 0 <==>
            exists open: bool :: Fragmentation(Accepted(IDLE, s) + [DataHead(Opcode(f[0]), Fin(f[0]))], open)
  {
    var fs, h := Accepted(IDLE, s), DataHead(Opcode(f[0]), Fin(f[0]));
    AcceptedTracked(IDLE, s);
    DataHeadCode(After(IDLE, s).value, f);
    FragmentationNext(fs, After(IDLE, s).value.open, h);
  }

  // ---------------------------------------------------------------------------
  // What a message comes to
  // ---------------------------------------------------------------------------

  /** One fragment: its data, and the key it is masked with, if any. */
  datatype Part = Part(key: Option<Key>, data: seq<byte>)

  function KeyOf(part: Part): Key {
    if part.key.Some? then part.key.value else ZERO_KEY
  }

  predicate Sendable(part: Part) { |part.data| < 0x1_0000_0000_0000_0000 }

  function HeadByte(fin: bool, opcode: byte): byte {
    (if fin then 0x80 else 0x00) | opcode
  }

  /** The frame a sender makes of a fragment. */
  function FrameBytes(fin: bool, opcode: byte, part: Part): seq<byte>
    requires Sendable(part)
  {
    FrameHeader(HeadByte(fin, opcode), part.key, |part.data|) + Unmask(part.data, KeyOf(part), 0)
  }

  /** The frames of a message.  Only the first carries the opcode, and only the last has FIN set. */
  function MessageBytes(opcode: byte, parts: seq<Part>): seq<byte>
    requires parts != [] && forall p :: p in parts ==> Sendable(p)
    decreases |parts|
  {
    if |parts| == 1 then FrameBytes(true, opcode, parts[0])
    else FrameBytes(false, opcode, parts[0]) + MessageBytes(CONTINUATION, parts[1..])
  }

  function DataOf(parts: seq<Part>): seq<byte> {
    if parts == [] then [] else parts[0].data + DataOf(parts[1..])
  }

  predicate IsData(opcode: byte) { opcode == CONTINUATION || opcode == TEXT || opcode == BINARY }

  lemma HeadByteFields(fin: bool, opcode: byte)
    requires opcode < 16
    ensures var b0 := HeadByte(fin, opcode);
            Fin(b0) == fin && Opcode(b0) == opcode && b0 == (if fin then 128 else 0) + opcode
  {}

  lemma HeadByteParts(fin: bool, opcode: byte)
    requires IsData(opcode)
    ensures var b0 := HeadByte(fin, opcode);
            Fin(b0) == fin && Opcode(b0) == opcode && Defined(b0, 0) && !IsControl(opcode)
  {}

  lemma HeadThenPayload(h: seq<byte>, payload: seq<byte>)
    requires 2 <= |h| == HeaderSize(h[1]) && Whole(h + payload) && PayloadLength(h + payload) == |payload|
    ensures Frame(h + payload) && Payload(h + payload) == payload
  {
    Cut(h + payload, h, payload);
    assert (h + payload)[1] == h[1];
  }

  /** A sender's frame is one frame, and unmasking its payload gives the fragment back. */
  lemma FrameBytesParse(fin: bool, opcode: byte, part: Part)
    requires Sendable(part) && opcode < 16
    ensures var f := FrameBytes(fin, opcode, part);
            && Frame(f) && f[0] == HeadByte(fin, opcode)
            && ParseHead(f) == Head(fin, opcode, KeyOf(part), |part.data|)
            && Payload(f) == Unmask(part.data, KeyOf(part), 0)
            && Unmask(Payload(f), KeyOf(part), 0) == part.data
  {
    HeadByteFields(fin, opcode);
    UnmaskTwice(part.data, KeyOf(part), 0);
    var b0, masked := HeadByte(fin, opcode), Unmask(part.data, KeyOf(part), 0);
    hide Unmask, HeadByte, Fin, Opcode, Defined, IsControl;
    HeaderRoundTrip(b0, part.key, |part.data|, masked);
    var h := FrameHeader(b0, part.key, |part.data|);
    hide FrameHeader;
    HeadThenPayload(h, masked);
  }

  lemma PartStep(m: Message, fin: bool, opcode: byte, part: Part)
    requires Sendable(part) && IsData(opcode) && m.open == (opcode == CONTINUATION)
    ensures Frame(FrameBytes(fin, opcode, part))
    ensures FrameStep(m, FrameBytes(fin, opcode, part)) == DataStep(m, fin, opcode, part.data)
  {
    FrameBytesParse(fin, opcode, part);
    HeadByteParts(fin, opcode);
    hide Unmask, FrameBytes, HeadByte, Payload;
  }

  /** The part of a message that is read as text: everything but a first fragment with the binary opcode. */
  function TextOf(opcode: byte, parts: seq<Part>): seq<byte>
    requires parts != []
  {
    if opcode == BINARY then DataOf(parts[1..]) else DataOf(parts)
  }

  /** The payload and the text of a message, first fragment first. */
  lemma FirstPart(m: Message, opcode: byte, parts: seq<Part>)
    requires parts != []
    ensures var own := if opcode == BINARY then [] else parts[0].data;
            && m.text + TextOf(opcode, parts) == (m.text + own) + DataOf(parts[1..])
            && m.payload + DataOf(parts) == (m.payload + parts[0].data) + DataOf(parts[1..])
            && (|parts| == 1 ==> m.text + TextOf(opcode, parts) == m.text + own
                                 && m.payload + DataOf(parts) == m.payload + parts[0].data)
  {
    var own := if opcode == BINARY then [] else parts[0].data;
    var more := DataOf(parts[1..]);
    assert TextOf(opcode, parts) == own + more by {
      Units(more);
    }
    Associative(m.text, own, more);
    Associative(m.payload, parts[0].data, more);
    if |parts| == 1 {
      assert more == [];
      Units(m.text + own);
      Units(m.payload + parts[0].data);
    }
  }

  lemma TextOfMore(parts: seq<Part>)
    requires parts != []
    ensures TextOf(CONTINUATION, parts) == DataOf(parts)
  {}

  lemma NotExtendable(s: seq<byte>, t: seq<byte>)
    requires !Utf8.Extendable(s)
    ensures !Utf8.WellFormed(s + t)
  {}

  lemma LastFrom(m: Message, opcode: byte, part: Part, rest: seq<byte>, chunkSize: nat)
    requires Sendable(part) && IsData(opcode) && m.open == (opcode == CONTINUATION) && chunkSize > 0
    ensures var text := m.text + if opcode == BINARY then [] else part.data;
            Decode(m, FrameBytes(true, opcode, part) + rest, chunkSize) ==
            if Utf8.WellFormed(text) then
              [Deliver(opcode == BINARY, m.payload + part.data)] + Decode(IDLE, rest, chunkSize)
            else [Cancel(1007)]
  {
    PartStep(m, true, opcode, part);
    hide FrameStep, Decode, FrameBytes, Utf8.WellFormed;
    DecodeFrame(m, FrameBytes(true, opcode, part), rest, chunkSize);
  }

  lemma FirstFrom(m: Message, opcode: byte, part: Part, tail: seq<byte>, chunkSize: nat)
    requires Sendable(part) && IsData(opcode) && m.open == (opcode == CONTINUATION) && chunkSize > 0
    ensures var text := m.text + if opcode == BINARY then [] else part.data;
            Decode(m, FrameBytes(false, opcode, part) + tail, chunkSize) ==
            if Utf8.Extendable(text) then Decode(Message(true, m.payload + part.data, text), tail, chunkSize)
            else [Cancel(1007)]
  {
    PartStep(m, false, opcode, part);
    hide FrameStep, Decode, FrameBytes, Utf8.Extendable;
    DecodeFrame(m, FrameBytes(false, opcode, part), tail, chunkSize);
    var step := FrameStep(m, FrameBytes(false, opcode, part));
    assert step.Go? ==> [] + Decode(step.message, tail, chunkSize) == Decode(step.message, tail, chunkSize);
  }

  /** What a message comes to that goes on after the fragments that are already there. */
  ghost function MessageEnd(m: Message, opcode: byte, parts: seq<Part>, rest: seq<byte>, chunkSize: nat): seq<Outcome>
    requires parts != [] && chunkSize > 0
  {
    if Utf8.WellFormed(m.text + TextOf(opcode, parts)) then
      [Deliver(opcode == BINARY && |parts| == 1, m.payload + DataOf(parts))] + Decode(IDLE, rest, chunkSize)
    else [Cancel(1007)]
  }

  /** One fragment. */
  lemma FragmentFrom(m: Message, opcode: byte, parts: seq<Part>, tail: seq<byte>, rest: seq<byte>, chunkSize: nat)
    requires parts != [] && Sendable(parts[0]) && chunkSize > 0
    requires IsData(opcode) && m.open == (opcode == CONTINUATION) && (|parts| == 1 ==> tail == rest)
    ensures var own := if opcode == BINARY then [] else parts[0].data;
            var next := Message(true, m.payload + parts[0].data, m.text + own);
            && Decode(m, FrameBytes(|parts| == 1, opcode, parts[0]) + tail, chunkSize) ==
               (if |parts| == 1 || !Utf8.Extendable(m.text + own) then MessageEnd(m, opcode, parts, rest, chunkSize)
                else Decode(next, tail, chunkSize))
            && (|parts| > 1 && Utf8.Extendable(m.text + own) ==>
                  MessageEnd(m, opcode, parts, rest, chunkSize) ==
                  MessageEnd(next, CONTINUATION, parts[1..], rest, chunkSize))
  {
    var own := if opcode == BINARY then [] else parts[0].data;
    FirstPart(m, opcode, parts);
    hide DataOf, TextOf, Decode, FrameBytes, Utf8.WellFormed, Utf8.Extendable;
    if |parts| == 1 {
      LastFrom(m, opcode, parts[0], rest, chunkSize);
    } else {
      FirstFrom(m, opcode, parts[0], tail, chunkSize);
      TextOfMore(parts[1..]);
      if !Utf8.Extendable(m.text + own) {
        NotExtendable(m.text + own, DataOf(parts[1..]));
      }
    }
  }

  lemma {:induction false} MessageFrom(m: Message, opcode: byte, parts: seq<Part>, rest: seq<byte>, chunkSize: nat)
    requires parts != [] && (forall p :: p in parts ==> Sendable(p)) && chunkSize > 0
    requires IsData(opcode) && m.open == (opcode == CONTINUATION)
    ensures Decode(m, MessageBytes(opcode, parts) + rest, chunkSize) == MessageEnd(m, opcode, parts, rest, chunkSize)
    decreases |parts|
  {
    var first, more := parts[0], parts[1..];
    var own := if opcode == BINARY then [] else first.data;
    hide MessageEnd, DataOf, TextOf, Decode, FrameBytes, Utf8.WellFormed, Utf8.Extendable;
    if |parts| == 1 {
      FragmentFrom(m, opcode, parts, rest, rest, chunkSize);
    } else {
      var f, tail := FrameBytes(false, opcode, first), MessageBytes(CONTINUATION, more) + rest;
      Associative(f, MessageBytes(CONTINUATION, more), rest);
      FragmentFrom(m, opcode, parts, tail, rest, chunkSize);
      if Utf8.Extendable(m.text + own) {
        MessageFrom(Message(true, m.payload + first.data, m.text + own), CONTINUATION, more, rest, chunkSize);
      }
    }
  }

  /** Every message, for every fragmentation, every choice of keys and every chunk size: it is delivered, as a whole,
      exactly when what is read as text is well formed, and as binary exactly when it is a single binary frame. */
  lemma MessageOutcome(opcode: byte, parts: seq<Part>, rest: seq<byte>, chunkSize: nat)
    requires parts != [] && (forall p :: p in parts ==> Sendable(p)) && chunkSize > 0
    requires opcode == TEXT || opcode == BINARY
    ensures Decode(IDLE, MessageBytes(opcode, parts) + rest, chunkSize) ==
            if Utf8.WellFormed(TextOf(opcode, parts)) then
              [Deliver(opcode == BINARY && |parts| == 1, DataOf(parts))] + Decode(IDLE, rest, chunkSize)
            else [Cancel(1007)]
  {
    MessageFrom(IDLE, opcode, parts, rest, chunkSize);
    assert [] + TextOf(opcode, parts) == TextOf(opcode, parts);
    assert [] + DataOf(parts) == DataOf(parts);
  }

  /** Two ways to send the same text have the same effect, and what comes after them has too. */
  lemma RefragmentingUnobservable(parts: seq<Part>, others: seq<Part>, rest: seq<byte>, a: nat, b: nat)
    requires parts != [] && (forall p :: p in parts ==> Sendable(p)) && a > 0
    requires others != [] && (forall p :: p in others ==> Sendable(p)) && b > 0
    requires DataOf(parts) == DataOf(others) && Frames(rest)
    ensures Decode(IDLE, MessageBytes(TEXT, parts) + rest, a) == Decode(IDLE, MessageBytes(TEXT, others) + rest, b)
  {
    MessageOutcome(TEXT, parts, rest, a);
    MessageOutcome(TEXT, others, rest, b);
    ChunkSizeUnobservable(IDLE, rest, a, b);
  }

  lemma OneBinaryPart(parts: seq<Part>)
    requires |parts| == 1
    ensures Utf8.WellFormed(TextOf(BINARY, parts))
  {}

  /** A binary message keeps its kind and its contents, whatever they are, exactly when it is not fragmented. */
  lemma BinaryKeptIffUnfragmented(parts: seq<Part>, chunkSize: nat)
    requires parts != [] && (forall p :: p in parts ==> Sendable(p)) && chunkSize > 0
    ensures Decode(IDLE, MessageBytes(BINARY, parts), chunkSize) == [Deliver(true, DataOf(parts))] <==> |parts| == 1
  {
    hide Decode, MessageBytes, TextOf, DataOf, Utf8.WellFormed;
    MessageOutcome(BINARY, parts, [], chunkSize);
    Units(MessageBytes(BINARY, parts));
    NothingLeft(chunkSize);
    Units([Deliver(|parts| == 1, DataOf(parts))]);
    if |parts| == 1 {
      OneBinaryPart(parts);
    }
  }

  lemma SecondPart(parts: seq<Part>)
    requires parts == [Part(None, []), Part(None, [0xFF])]
    ensures TextOf(BINARY, parts) == [0xFF]
  {
    var last := [parts[1]];
    assert parts[1..] == last && last[1..] == [];
    assert DataOf(last[1..]) == [];
    Units(parts[1].data);
  }

  lemma NotText()
    ensures !Utf8.WellFormed([0xFF])
  {
    Utf8.CompleteIffWellFormed([0xFF]);
    Utf8.ConsumeOne(Utf8.START, 0xFF);
  }

  /** A fragmented binary message that is refused: its second fragment is not UTF-8. */
  lemma FragmentedBinaryRefused(chunkSize: nat)
    requires chunkSize > 0
    ensures Decode(IDLE, MessageBytes(BINARY, [Part(None, []), Part(None, [0xFF])]), chunkSize) == [Cancel(1007)]
  {
    hide Decode, MessageBytes, TextOf, DataOf, Utf8.WellFormed;
    var parts := [Part(None, []), Part(None, [0xFF])];
    MessageOutcome(BINARY, parts, [], chunkSize);
    Units(MessageBytes(BINARY, parts));
    SecondPart(parts);
    NotText();
  }

  // ---------------------------------------------------------------------------
  // Control frames within a message
  // ---------------------------------------------------------------------------

  /** Pings and pongs, one after the other, with headers that are accepted. */
  ghost predicate PingsAndPongs(s: seq<byte>)
    decreases |s|
  {
    s == [] || (Complete(s) && Opcode(s[0]) in {PING, PONG} && HeadCode(IDLE, s) == 0
                && PingsAndPongs(s[FrameSize(s)..]))
  }

  /** What they are answered with: for each ping, in order, a pong with the ping's unmasked data. */
  ghost function Answers(s: seq<byte>): seq<Outcome>
    requires PingsAndPongs(s)
    decreases |s|
  {
    if s == [] then []
    else (if Opcode(s[0]) == PING then [Send([0x8A, Bare(s[1])] + Unmask(Payload(s), MaskingKey(s), 0))] else [])
         + Answers(s[FrameSize(s)..])
  }

  /** All the answers to several of these. */
  ghost function AllAnswers(pings: seq<seq<byte>>): seq<Outcome>
    requires forall i :: 0 <= i < |pings| ==> PingsAndPongs(pings[i])
  {
    if pings == [] then [] else Answers(pings[0]) + AllAnswers(pings[1..])
  }

  /** The frames of a message, with `pings[i]` in front of fragment `i`. */
  function Interleaved(opcode: byte, parts: seq<Part>, pings: seq<seq<byte>>): seq<byte>
    requires parts != [] && |parts| == |pings| && forall p :: p in parts ==> Sendable(p)
    decreases |parts|
  {
    pings[0] + (FrameBytes(|parts| == 1, opcode, parts[0])
                + if |parts| == 1 then [] else Interleaved(CONTINUATION, parts[1..], pings[1..]))
  }

  /** The fragment at which a message is refused or complete: the first one behind which the text cannot be continued,
      or the last one. */
  ghost function LastRead(text: seq<byte>, opcode: byte, parts: seq<Part>): (k: nat)
    requires parts != []
    ensures k < |parts|
    decreases |parts|
  {
    var now := text + if opcode == BINARY then [] else parts[0].data;
    if |parts| == 1 || !Utf8.Extendable(now) then 0 else 1 + LastRead(now, CONTINUATION, parts[1..])
  }

  /** The text of the first `k` fragments. */
  lemma TextBehind(text: seq<byte>, opcode: byte, parts: seq<Part>, k: nat)
    requires 1 < k <= |parts|
    ensures var now := text + if opcode == BINARY then [] else parts[0].data;
            text + TextOf(opcode, parts[..k]) == now + TextOf(CONTINUATION, parts[1..][..k - 1])
  {
    var more := parts[1..][..k - 1];
    assert parts[..k][1..] == more && parts[..k][0] == parts[0];
    FirstPart(Message(true, [], text), opcode, parts[..k]);
  }

  lemma TextOfOne(text: seq<byte>, opcode: byte, parts: seq<Part>)
    requires parts != []
    ensures text + TextOf(opcode, parts[..1]) == text + if opcode == BINARY then [] else parts[0].data
  {
    hide TextOf;
    assert parts[..1][0] == parts[0];
    FirstPart(Message(true, [], text), opcode, parts[..1]);
  }

  /** Up to there the text can be continued; if it is not the last fragment, it cannot any more. */
  lemma {:induction false} LastReadIsFirst(text: seq<byte>, opcode: byte, parts: seq<Part>, j: nat)
    requires parts != [] && j < |parts| - 1
    ensures j < LastRead(text, opcode, parts) ==> Utf8.Extendable(text + TextOf(opcode, parts[..j + 1]))
    ensures j == LastRead(text, opcode, parts) ==> !Utf8.Extendable(text + TextOf(opcode, parts[..j + 1]))
    decreases |parts|
  {
    hide TextOf, Utf8.Extendable;
    var now := text + if opcode == BINARY then [] else parts[0].data;
    if j == 0 {
      TextOfOne(text, opcode, parts);
    } else {
      TextBehind(text, opcode, parts, j + 1);
      LastReadIsFirst(now, CONTINUATION, parts[1..], j - 1);
    }
  }

  lemma PongOf(b0: byte)
    requires Defined(b0, 0) && Fin(b0)
    ensures AsPong(b0) == 0x8A
  {}

  lemma PingStep(m: Message, f: seq<byte>)
    requires Complete(f) && Opcode(f[0]) in {PING, PONG} && HeadCode(IDLE, f) == 0
    ensures var reply := [0x8A, Bare(f[1])] + Unmask(Payload(f), MaskingKey(f), 0);
            FrameStep(m, f) == Go(if Opcode(f[0]) == PING then [Send(reply)] else [], m)
  {
    PongOf(f[0]);
    hide Bare, AsPong, Unmask;
  }

  lemma FrontPing(s: seq<byte>)
    requires Complete(s) && HeadCode(IDLE, s) == 0
    ensures var f := s[..FrameSize(s)];
            && Frame(f) && f[0] == s[0] && f[1] == s[1] && HeadCode(IDLE, f) == 0
            && Payload(f) == Payload(s) && MaskingKey(f) == MaskingKey(s)
  {
    FrontFrame(s);
    assert s[..FrameSize(s)][0] == s[0] && s[..FrameSize(s)][1] == s[1];
    assert ParseHead(s[..FrameSize(s)]).key == MaskingKey(s);
  }

  lemma {:induction false} PingsAnswered(m: Message, pings: seq<byte>, rest: seq<byte>, chunkSize: nat)
    requires PingsAndPongs(pings) && chunkSize > 0
    ensures Decode(m, pings + rest, chunkSize) == Answers(pings) + Decode(m, rest, chunkSize)
    decreases |pings|
  {
    if pings == [] {
      Units(rest);
      Units(Decode(m, rest, chunkSize));
    } else {
      var f, more := pings[..FrameSize(pings)], pings[FrameSize(pings)..];
      FrontPing(pings);
      PingStep(m, f);
      hide Decode, FrameStep, HeadCode, Unmask, Bare, Payload, MaskingKey;
      assert pings == f + more;
      Associative(f, more, rest);
      PingsAnswered(m, more, rest, chunkSize);
      DecodeFrame(m, f, more + rest, chunkSize);
      Associative(FrameStep(m, f).outcomes, Answers(more), Decode(m, rest, chunkSize));
    }
  }

  /** The first fragment, and the others. */
  lemma Unrolled(opcode: byte, parts: seq<Part>, pings: seq<seq<byte>>, rest: seq<byte>)
    requires parts != [] && |parts| == |pings| && forall p :: p in parts ==> Sendable(p)
    ensures IsData(CONTINUATION)
    ensures var f := FrameBytes(|parts| == 1, opcode, parts[0]);
            Interleaved(opcode, parts, pings) + rest ==
            pings[0] + (f + if |parts| == 1 then rest else Interleaved(CONTINUATION, parts[1..], pings[1..]) + rest)
  {
    hide FrameBytes;
    var f := FrameBytes(|parts| == 1, opcode, parts[0]);
    if |parts| == 1 {
      Units(f);
      Associative(pings[0], f, rest);
    } else {
      var tail := Interleaved(CONTINUATION, parts[1..], pings[1..]);
      Associative(pings[0], f + tail, rest);
      Associative(f, tail, rest);
    }
  }

  /** The answers in front of the first fragments. */
  lemma FirstAnswers(pings: seq<seq<byte>>, k: nat, later: seq<Outcome>)
    requires k < |pings| && forall i :: 0 <= i < |pings| ==> PingsAndPongs(pings[i])
    ensures AllAnswers(pings[..k + 1]) + later ==
            Answers(pings[0]) + (if k == 0 then later else AllAnswers(pings[1..][..k]) + later)
  {
    hide PingsAndPongs, Answers;
    assert pings[..k + 1][1..] == pings[1..][..k];
    if k == 0 {
      Units(Answers(pings[0]));
    } else {
      Associative(Answers(pings[0]), AllAnswers(pings[1..][..k]), later);
    }
  }

  lemma LastReadUnrolled(m: Message, opcode: byte, parts: seq<Part>)
    requires parts != []
    ensures var now := m.text + if opcode == BINARY then [] else parts[0].data;
            LastRead(m.text, opcode, parts) ==
            if |parts| == 1 || !Utf8.Extendable(now) then 0 else 1 + LastRead(now, CONTINUATION, parts[1..])
  {
    hide Utf8.Extendable;
  }

  lemma {:induction false} InterleavedFrom(m: Message, opcode: byte, parts: seq<Part>, pings: seq<seq<byte>>,
                                           rest: seq<byte>, chunkSize: nat)
    requires parts != [] && |parts| == |pings| && (forall p :: p in parts ==> Sendable(p)) && chunkSize > 0
    requires IsData(opcode) && m.open == (opcode == CONTINUATION)
    requires forall i :: 0 <= i < |pings| ==> PingsAndPongs(pings[i])
    ensures Decode(m, Interleaved(opcode, parts, pings) + rest, chunkSize) ==
            AllAnswers(pings[..LastRead(m.text, opcode, parts) + 1]) + MessageEnd(m, opcode, parts, rest, chunkSize)
    decreases |parts|
  {
    hide *;
    var first, more := parts[0], parts[1..];
    var f := FrameBytes(|parts| == 1, opcode, first);
    var own := if opcode == BINARY then [] else first.data;
    LastReadUnrolled(m, opcode, parts);
    Unrolled(opcode, parts, pings, rest);
    FirstAnswers(pings, LastRead(m.text, opcode, parts), MessageEnd(m, opcode, parts, rest, chunkSize));
    var tail := if |parts| == 1 then rest else Interleaved(CONTINUATION, more, pings[1..]) + rest;
    PingsAnswered(m, pings[0], f + tail, chunkSize);
    FragmentFrom(m, opcode, parts, tail, rest, chunkSize);
    if |parts| > 1 && Utf8.Extendable(m.text + own) {
      InterleavedFrom(Message(true, m.payload + first.data, m.text + own), CONTINUATION, more, pings[1..], rest,
                      chunkSize);
    }
  }

  lemma {:induction false} WellFormedReadsAll(text: seq<byte>, opcode: byte, parts: seq<Part>)
    requires parts != [] && Utf8.WellFormed(text + TextOf(opcode, parts))
    ensures LastRead(text, opcode, parts) == |parts| - 1
    decreases |parts|
  {
    hide TextOf, DataOf, Utf8.WellFormed, Utf8.Extendable;
    if |parts| > 1 {
      var own := if opcode == BINARY then [] else parts[0].data;
      FirstPart(Message(true, [], text), opcode, parts);
      TextOfMore(parts[1..]);
      if !Utf8.Extendable(text + own) {
        NotExtendable(text + own, DataOf(parts[1..]));
      }
      WellFormedReadsAll(text + own, CONTINUATION, parts[1..]);
    }
  }

  /** A message with any pings and pongs in front of and between its fragments: the answers to the pings, in order, as
      far as the fragments are read, and then the outcome of the message. */
  lemma InterleavedOutcome(opcode: byte, parts: seq<Part>, pings: seq<seq<byte>>, rest: seq<byte>, chunkSize: nat)
    requires parts != [] && |parts| == |pings| && (forall p :: p in parts ==> Sendable(p)) && chunkSize > 0
    requires opcode == TEXT || opcode == BINARY
    requires forall i :: 0 <= i < |pings| ==> PingsAndPongs(pings[i])
    ensures Decode(IDLE, Interleaved(opcode, parts, pings) + rest, chunkSize) ==
            if Utf8.WellFormed(TextOf(opcode, parts)) then
              AllAnswers(pings) + ([Deliver(opcode == BINARY && |parts| == 1, DataOf(parts))]
                                   + Decode(IDLE, rest, chunkSize))
            else AllAnswers(pings[..LastRead([], opcode, parts) + 1]) + [Cancel(1007)]
  {
    hide Decode, Interleaved, TextOf, DataOf, AllAnswers, Answers, PingsAndPongs, LastRead, Utf8.WellFormed;
    InterleavedFrom(IDLE, opcode, parts, pings, rest, chunkSize);
    Units(TextOf(opcode, parts));
    Units(DataOf(parts));
    if Utf8.WellFormed(TextOf(opcode, parts)) {
      WellFormedReadsAll([], opcode, parts);
      assert pings[..|parts|] == pings;
    }
  }
}
