/** The session after the handshake: each method below is one callback, which runs when the bytes it has asked for
    have arrived. */
module Sessions {
  import opened Bytes
  import opened Chunks
  import opened FrameFormat
  import opened FrameHeaders
  import opened Controls
  import opened Decoder
  import opened Delivery
  import opened Faults
  import opened Gathering
  import opened NetworkOrder
  import opened Progress
  import opened Reads
  import opened Schedule
  import opened Sequences
  import Utf8

  /** The read that is outstanding, and how many bytes it is for.  `Lost` is where the model stops, because a 64-bit
      counter no longer has its true value. */
  datatype Pending = AwaitHeader(size: nat) | AwaitControl(size: nat) | AwaitChunk(size: nat) | Gone | Lost {
    predicate Reads() { !Gone? && !Lost? }
  }

  /** Puts bytes from the socket in their place. */
  method CopyIn<T>(target: array<T>, at: nat, s: seq<T>)
    requires at + |s| <= target.Length
    modifies target
    ensures target[..at] == old(target[..at]) && target[at + |s|..] == old(target[at + |s|..])
    ensures target[at..at + |s|] == s
  {
    forall i | 0 <= i < |s| {
      target[at + i] := s[i];
    }
  }

  lemma SameKeyPlace<T>(before: seq<T>, after: seq<T>, n: nat)
    requires n <= 10 && |before| == |after| == 14 && after[n..] == before[n..]
    ensures after[10..14] == before[10..14]
  {
    assert after[n..][10 - n..14 - n] == before[n..][10 - n..14 - n];
  }

  lemma FirstTwoAt<T>(h: seq<T>, s: seq<T>, i: nat)
    requires 2 <= |h| && i + 2 <= |s| && h[..2] == s[i..i + 2]
    ensures h[0] == s[i..][0] && h[1] == s[i..][1]
  {
    assert h[0] == h[..2][0] && h[1] == h[..2][1];
  }

  /** The bytes of a header stage.  Those of the second stage leave the first two alone, and the place of an absent
      key too. */
  method Fill(h: Header, s: seq<byte>)
    requires h.buffer.Length == 14
    requires (h.state == FIRST && |s| == 2) || (h.Halfway() && |s| == h.nextReadSize)
    modifies h.buffer
    ensures h.state == FIRST ==> h.buffer[..2] == s
    ensures h.state == SECOND ==> h.Halfway() && h.buffer[..2] == old(h.buffer[..2]) && h.buffer[2..2 + |s|] == s
  {
    hide Defined, ReadsAsBinary, ShortLength, ExtendedSize, Masked;
    ghost var before := h.buffer[..];
    CopyIn(h.buffer, h.CurrentPosition(), s);
    if h.state == SECOND {
      assert h.buffer[0] == h.buffer[..2][0] && h.buffer[1] == h.buffer[..2][1];
      if !Masked(h.buffer[1]) {
        SameKeyPlace(before, h.buffer[..], 2 + |s|);
      }
    }
  }

  /** The bytes of a scheduled read, behind what is in the chunk already. */
  method FillChunk(gather: Gather, buffer: ChunkVector<byte>, s: seq<byte>)
    requires gather.Scheduled(buffer) && |s| == gather.nextConsume
    modifies gather.chunk
    ensures gather.Scheduled(buffer) && gather.Raw(|s|) == s && |s| > 0
    ensures gather.chunk != null && gather.chunk in buffer.chunks
    ensures buffer.Prefix(gather.totalConsumed) == old(buffer.Prefix(gather.totalConsumed))
  {
    ghost var front := gather.WhereNext(buffer);
    hide Concat, ChunkVector.Prefix, ChunkVector.Valid, NextRead, Gather.Scheduled;
    buffer.PrefixAt(gather.totalConsumed, gather.offset);
    CopyIn(gather.chunk, gather.offset, s);
    buffer.PrefixAt(gather.totalConsumed, gather.offset);
  }

  /** What is in each chunk. */
  ghost function Contents<T>(chunks: seq<array<T>>): (parts: seq<seq<T>>)
    reads chunks
    ensures |parts| == |chunks|
  {
    if chunks == [] then [] else Contents(chunks[..|chunks| - 1]) + [chunks[|chunks| - 1][..]]
  }

  lemma {:induction false} ContentsAt<T>(chunks: seq<array<T>>, k: nat)
    requires k < |chunks|
    ensures Contents(chunks)[k] == chunks[k][..]
  {
    if k == |chunks| - 1 {
    } else {
      ContentsAt(chunks[..|chunks| - 1], k);
    }
  }

  lemma {:induction false} ContentsJoin<T>(chunks: seq<array<T>>)
    ensures Join(Contents(chunks)) == Concat(chunks)
  {
    if chunks == [] {
    } else {
      ContentsJoin(chunks[..|chunks| - 1]);
      JoinLast(Contents(chunks[..|chunks| - 1]), chunks[|chunks| - 1][..]);
    }
  }

  /** The chunks of a completed message are the parts its data is split into. */
  lemma ChunksAreParts<T>(buffer: ChunkVector<T>, total: nat)
    requires buffer.Valid() && buffer.Length() == total > 0
    requires (|buffer.chunks| - 1) * buffer.chunkSize < total
    ensures buffer.chunks != []
    ensures Split(buffer.Flat(), buffer.chunkSize) == Contents(buffer.chunks)
  {
    var n := |buffer.chunks| - 1;
    forall i | 0 <= i <= n
      ensures Contents(buffer.chunks)[i] == buffer.chunks[i][..]
    {
      ContentsAt(buffer.chunks, i);
    }
    ContentsJoin(buffer.chunks);
    TightIsSplit(Contents(buffer.chunks), buffer.chunkSize);
  }

  /** The events for the parts from `k` on. */
  function LaterParts(parts: seq<seq<byte>>, k: nat): seq<Event>
    requires parts != [] && k <= |parts|
  {
    if k == |parts| then [] else PartEvents(parts[k..])
  }

  lemma NextPart(parts: seq<seq<byte>>, k: nat, log: seq<Event>)
    requires k < |parts|
    ensures var event := if k + 1 == |parts| then Last(parts[k]) else More(parts[k]);
            log + LaterParts(parts, k) == (log + [event]) + LaterParts(parts, k + 1)
  {
    assert parts[k..][1..] == parts[k + 1..];
    Associative(log, [if k + 1 == |parts| then Last(parts[k]) else More(parts[k])], LaterParts(parts, k + 1));
  }

  /** The objects of a session. */
  method NewParts(chunkSize: uint64)
    returns (buffer: ChunkVector<byte>, header: Header, tempHeader: Header, gather: Gather, control: Control)
    requires chunkSize > 0
    ensures fresh(buffer) && buffer.chunkSize == chunkSize && buffer.chunks == []
    ensures fresh(header) && fresh(header.buffer) && fresh(tempHeader) && fresh(tempHeader.buffer)
    ensures header != tempHeader && header.buffer != tempHeader.buffer
    ensures tempHeader.rsvc == 0 && tempHeader.buffer.Length == 14
    ensures fresh(gather) && fresh(gather.utf8)
    ensures fresh(control) && fresh(control.buffer) && control.buffer.Length == 129
    ensures control.buffer != header.buffer && control.buffer != tempHeader.buffer
  {
    hide *;
    buffer := new ChunkVector<byte>(chunkSize, 0);
    header := new Header();
    tempHeader := new Header();
    gather := new Gather();
    control := new Control();
  }

  class Session {
    const chunkSize: uint64
    // The socket: everything that will arrive, and how much of it has been read.
    const input: seq<byte>
    var position: nat
    var pending: Pending
    // What has been handed over to the dealer and written to the socket.
    var log: seq<Event>

    var newRequest: bool
    var buffer: ChunkVector<byte>
    const header: Header
    const tempHeader: Header
    const gather: Gather
    const control: Control

    // Where the current frame begins, and the message in progress there.
    ghost var frameStart: nat
    ghost var message: Message
    // The payload sizes of that message's frames.
    ghost var sizes: seq<nat>
    // Where the reads have ended for each message that has been handed over.
    ghost var ends: seq<seq<nat>>

    ghost function Repr(): set<object>
      reads this, header, tempHeader, control, buffer
    {
      {this, header, header.buffer, tempHeader, tempHeader.buffer, gather, gather.utf8, control, control.buffer, buffer}
      + set c | c in buffer.chunks
    }

    ghost predicate Base()
      reads this`frameStart, this`position, this`message, this`sizes, this`buffer, header, tempHeader, control, buffer
    {
      && chunkSize > 0
      && header != tempHeader && tempHeader.rsvc == 0
      && tempHeader.buffer.Length == 14 && control.buffer.Length == 129
      && tempHeader.buffer != control.buffer && header.buffer != control.buffer
      && header.buffer !in buffer.chunks && tempHeader.buffer !in buffer.chunks && control.buffer !in buffer.chunks
      && frameStart <= position <= |input|
      && FirstFault(IDLE, input, chunkSize) == FirstFault(message, input[frameStart..], chunkSize)
      && (!message.open ==> message == IDLE && sizes == [])
    }

    /** The bytes from the current frame on. */
    ghost function Rest(): seq<byte>
      reads this`frameStart
    {
      if frameStart <= |input| then input[frameStart..] else []
    }

    /** The log and the reads agree with the one-shot decoder so far. */
    ghost predicate LogAgrees()
      reads this`frameStart, this`message, this`log, this`sizes, this`ends
    {
      chunkSize > 0 && Tracks(input, chunkSize, log, ends, message, sizes, Rest())
    }

    /** The connection has ended, or nothing is left to be read: all of the stream has been decoded. */
    ghost predicate Over()
      reads this`log, this`ends
    {
      && chunkSize > 0
      && Ended(input, chunkSize, log, ends) && FirstFault(IDLE, input, chunkSize) == NoFault
    }

    /** No counter goes wrong in the rest of the stream. */
    ghost predicate Safe()
      reads this`frameStart, this`message
    {
      chunkSize > 0 && FirstFault(message, Rest(), chunkSize) == NoFault
    }

    /** A counter goes wrong in the current frame. */
    ghost predicate AtFault()
      reads this`frameStart, this`message
    {
      chunkSize > 0 && FirstFault(message, Rest(), chunkSize) == FaultAt(message, Rest())
    }

    /** Between the frames of a message, the buffer and the checker hold what has been received of it. */
    ghost predicate MessageHeld()
      reads this`message, this`sizes, this`buffer, gather, gather.utf8, buffer, buffer.chunks
    {
      && gather.Valid() && gather.utf8.Ok() && gather.OnSchedule(chunkSize) && gather.sizes == sizes
      && gather.totalConsumed == gather.totalSize == |message.payload|
      && gather.Packed(buffer) && buffer.chunkSize == chunkSize
      && buffer.Prefix(gather.totalConsumed) == message.payload
      && gather.utf8.Expecting() == Utf8.Consume(Utf8.START, message.text)
    }

    ghost predicate Between()
      reads this`newRequest, this`message, this`sizes, this`buffer, gather, gather.utf8, buffer, buffer.chunks
    {
      newRequest == !message.open && (message.open ==> MessageHeld())
    }

    /** A parsed header is the one at the front of `s`. */
    ghost predicate Shows(h: Header, s: seq<byte>)
      reads h, h.buffer
    {
      && h.Decoded() && Whole(s)
      && h.buffer[0] == s[0] && h.buffer[1] == s[1]
      && h.Key() == MaskingKey(s) && h.payloadSize == PayloadLength(s)
    }

    /** The two bytes of the first stage, or the header up to its end, are in the buffer. */
    ghost predicate HeaderRead()
      reads this`frameStart, this`position, tempHeader, tempHeader.buffer
    {
      && tempHeader.buffer.Length == 14
      && var n := position - frameStart;
      && 2 <= n <= 14 && frameStart + n <= |input|
      && tempHeader.buffer[..n] == input[frameStart..frameStart + n]
      && match tempHeader.state
         case FIRST => n == 2
         case SECOND => tempHeader.Halfway() && n == HeaderSize(tempHeader.buffer[1])
         case _ => false
    }

    ghost predicate HeaderAwaited(size: nat)
      reads this`frameStart, this`position, tempHeader, tempHeader.buffer
    {
      && tempHeader.buffer.Length == 14 && size == tempHeader.nextReadSize
      && match tempHeader.state
         case FIRST => size == 2 && position == frameStart
         case SECOND =>
           && tempHeader.Halfway() && size == HeaderSize(tempHeader.buffer[1]) - 2
           && position == frameStart + 2 <= |input|
           && tempHeader.buffer[..2] == input[frameStart..frameStart + 2]
         case _ => false
    }

    /** The header of the current frame has been read and accepted. */
    ghost predicate Ahead(h: Header)
      reads this`frameStart, this`message, h, h.buffer
    {
      Shows(h, Rest()) && HeadCode(message, Rest()) == 0
    }

    ghost predicate ControlAwaited(size: nat)
      reads this`frameStart, this`message, this`position, tempHeader, tempHeader.buffer, control, control.buffer
    {
      && Ahead(tempHeader) && position == frameStart + HeaderSize(Rest()[1])
      && IsControl(Opcode(Rest()[0])) && size == PayloadLength(Rest()) <= 125
      && control.buffer.Length == 129 && control.buffer[3] == 0
    }

    /** The whole control frame has arrived. */
    ghost predicate ControlRead()
      reads this`frameStart, this`message, this`position, tempHeader, tempHeader.buffer, control, control.buffer
    {
      && Ahead(tempHeader) && Complete(Rest()) && position == frameStart + FrameSize(Rest())
      && IsControl(Opcode(Rest()[0])) && PayloadLength(Rest()) <= 125
      && control.buffer.Length == 129
      && control.buffer[2..2 + PayloadLength(Rest())] == Payload(Rest())
      && (PayloadLength(Rest()) < 2 ==> control.buffer[3] == 0)
    }

    /** Within a data frame: the counters and the checker have taken in the message so far and `gather.done` bytes of
        the frame. */
    ghost predicate Counted()
      reads this`frameStart, this`message, this`sizes, header, header.buffer, gather, gather.utf8
    {
      && Ahead(header) && !IsControl(Opcode(Rest()[0])) && gather.sizes == sizes + [PayloadLength(Rest())]
      && gather.Valid() && gather.utf8.Ok() && gather.InStep(header.Key()) && gather.OnSchedule(chunkSize)
      && gather.totalSize == |message.payload| + PayloadLength(Rest())
      && gather.totalConsumed == |message.payload| + gather.done <= gather.totalSize
      && HeaderSize(Rest()[1]) + gather.done <= |Rest()|
      && gather.utf8.Expecting() ==
         Checked(Utf8.Consume(Utf8.START, message.text), header.isBinary, PlainPart(Rest(), gather.done))
    }

    /** And so has the buffer. */
    ghost predicate InFrame()
      reads this`frameStart, this`message, this`sizes, this`buffer, header, header.buffer, gather, gather.utf8, buffer,
            buffer.chunks
    {
      && Counted()
      && buffer.chunkSize == chunkSize
      && buffer.Prefix(gather.totalConsumed) == message.payload + PlainPart(Rest(), gather.done)
    }

    ghost predicate ChunkAwaited(size: nat)
      reads this`frameStart, this`message, this`sizes, this`position, this`buffer, header, header.buffer, gather,
            gather.utf8, buffer, buffer.chunks
    {
      && InFrame() && gather.Scheduled(buffer) && size == gather.nextConsume
      && position == frameStart + HeaderSize(Rest()[1]) + gather.done
      && (gather.done == 0 || gather.totalConsumed % chunkSize == 0)
      && Covered(message, Rest(), gather.done, chunkSize) && ChunkFits(gather.totalConsumed, chunkSize)
    }

    /** The bytes that were asked for have arrived; at the beginning of a frame there are none. */
    ghost predicate ChunkRead(amount: nat)
      reads this`frameStart, this`message, this`sizes, this`position, this`buffer, header, header.buffer, gather,
            gather.utf8, buffer, buffer.chunks, gather.chunk
    {
      && InFrame()
      && (if amount == 0 then gather.done == 0 && gather.Packed(buffer)
          else gather.Scheduled(buffer) && amount == gather.nextConsume)
      && var n := HeaderSize(Rest()[1]) + gather.done;
      && position == frameStart + n + amount <= |input|
      && gather.Raw(amount) == Rest()[n..n + amount]
      && Covered(message, Rest(), gather.done, chunkSize)
      && (amount > 0 ==> ChunkFits(gather.totalConsumed, chunkSize))
    }

    /** What every callback keeps: the log agrees with the one-shot decoder, and the read that is outstanding is the
        right one. */
    ghost predicate Valid()
      reads Repr(), gather.chunk
    {
      && Base()
      && match pending
         case AwaitHeader(size) => LogAgrees() && Between() && HeaderAwaited(size)
         case AwaitControl(size) => LogAgrees() && Between() && ControlAwaited(size)
         case AwaitChunk(size) => LogAgrees() && ChunkAwaited(size)
         case Gone => Over()
         case Lost => LogAgrees() && AtFault()
    }

    /** All of the current data frame has been taken in. */
    ghost predicate FrameHeld()
      reads this`frameStart, this`message, this`sizes, this`position, this`buffer, this`newRequest, header,
            header.buffer, gather, gather.utf8, buffer, buffer.chunks
    {
      && Ahead(header) && !IsControl(Opcode(Rest()[0])) && newRequest == Fin(Rest()[0])
      && Complete(Rest()) && position == frameStart + FrameSize(Rest())
      && gather.sizes == sizes + [PayloadLength(Rest())]
      && gather.Valid() && gather.utf8.Ok() && gather.OnSchedule(chunkSize)
      && gather.totalConsumed == gather.totalSize == |message.payload| + PayloadLength(Rest())
      && gather.utf8.Expecting() == CheckedPart(message, Rest(), PayloadLength(Rest()))
      && buffer.chunkSize == chunkSize
      && Covered(message, Rest(), PayloadLength(Rest()), chunkSize)
      && var now := message.payload + PlainPart(Rest(), PayloadLength(Rest()));
      if newRequest then
        && gather.utf8.Complete()
        && (Closable(gather.totalSize, chunkSize) ==> gather.Delivered(buffer) && buffer.Flat() == now)
      else
        gather.Packed(buffer) && buffer.Prefix(gather.totalConsumed) == now
    }

    // -------------------------------------------------------------------------
    // The callbacks
    // -------------------------------------------------------------------------

    /** Nothing has been read. */
    ghost predicate Initial()
      reads this, header, tempHeader, control, buffer
    {
      && chunkSize > 0
      && frameStart == position == 0 && message == IDLE && newRequest && log == []
      && sizes == [] && ends == []
      && header != tempHeader && header.buffer != tempHeader.buffer && tempHeader.rsvc == 0
      && tempHeader.buffer.Length == 14 && control.buffer.Length == 129 && buffer.chunks == []
      && tempHeader.buffer != control.buffer && header.buffer != control.buffer
    }

    lemma NoChunksYet()
      requires buffer.chunks == []
      ensures Repr() == {this, header, header.buffer, tempHeader, tempHeader.buffer, gather, gather.utf8, control,
                         control.buffer, buffer}
    {}

    constructor (input: seq<byte>, chunkSize: uint64)
      requires chunkSize > 0
      ensures fresh(Repr()) && Initial()
      ensures this.input == input && this.chunkSize == chunkSize
    {
      this.input, this.chunkSize := input, chunkSize;
      position, pending, log := 0, Gone, [];
      frameStart, message, sizes, ends := 0, IDLE, [], [];
      newRequest := true;
      var b, h, t, g, c := NewParts(chunkSize);
      buffer, header, tempHeader, gather, control := b, h, t, g, c;
      new;
      NoChunksYet();
    }

    lemma InitiallyOnTrack()
      requires Initial()
      ensures Base() && Between() && LogAgrees() && position == frameStart
    {
      hide FirstFault, Tracks, MessageHeld;
      TracksBegin(input, chunkSize);
      assert input[0..] == input;
    }

    /** Asks for the first two bytes of the next frame. */
    method ReadHeader()
      requires Base() && Between() && LogAgrees() && position == frameStart
      modifies this`pending, tempHeader
      ensures Base() && Between() && LogAgrees()
      ensures pending.AwaitHeader? && HeaderAwaited(pending.size) && tempHeader.state == FIRST
      ensures fresh(tempHeader.buffer)
    {
      hide LogAgrees, MessageHeld, Header.Halfway, FirstFault;
      tempHeader.NewBuffer();
      pending := AwaitHeader(tempHeader.nextReadSize);
    }

    /** The handshake is over, and the first header is asked for. */
    method Start()
      requires Initial()
      modifies this`pending, tempHeader
      ensures Valid() && fresh(Repr() - old(Repr()))
    {
      hide Base, Between, LogAgrees, HeaderAwaited, ControlAwaited, ChunkAwaited, Ended, Initial;
      InitiallyOnTrack();
      ReadHeader();
    }

    /** The end of the connection, with a status code. */
    method CancelSocket(code: nat)
      requires Base() && LogAgrees() && Safe()
      requires Decode(message, Rest(), chunkSize) == [Cancel(code)]
      modifies this`log, this`pending
      ensures pending == Gone && log == old(log) + [Cancelled(code, CancelBytes(code))]
      ensures Base() && Over()
    {
      hide Decode, RenderAll, Tracks, Ended, FirstFault;
      TracksEnd(input, chunkSize, log, ends, message, sizes, Rest(), Cancel(code));
      var header := new byte[14];
      header[0] := 0x88;
      header[1] := 0x00;
      header[2] := Digit(code / 256);
      header[3] := Digit(code);
      assert header[..4] == CancelBytes(code);
      log := log + [Cancelled(code, header[..4])];
      pending := Gone;
    }

    /** The bytes of a header stage arrive. */
    method ReceiveHeader(size: nat)
      requires Base() && Between() && LogAgrees() && HeaderAwaited(size) && position + size <= |input|
      modifies this`position, tempHeader.buffer
      ensures Base() && Between() && LogAgrees() && HeaderRead() && position == old(position) + size
    {
      hide LogAgrees, MessageHeld, Header.Halfway, FirstFault;
      Fill(tempHeader, input[position..position + size]);
      position := position + size;
      if tempHeader.state == SECOND {
        Adjacent(input, frameStart, frameStart + 2, position);
        Adjacent(tempHeader.buffer[..], 0, 2, 2 + size);
        assert tempHeader.buffer[1] == old(tempHeader.buffer[..2])[1];
      }
    }

    method ProcessFirst() returns (code: nat)
      requires Base() && HeaderRead() && tempHeader.state == FIRST
      modifies tempHeader, tempHeader.buffer
      ensures tempHeader.buffer == old(tempHeader.buffer) && tempHeader.rsvc == old(tempHeader.rsvc)
      ensures code != 0 ==> Decode(message, Rest(), chunkSize) == [Cancel(code)] && Safe()
      ensures code == 0 ==> tempHeader.state == SECOND && HeaderAwaited(tempHeader.nextReadSize)
    {
      hide LogAgrees, MessageHeld, FirstFault, Decode, Defined;
      ghost var b0, b1 := tempHeader.buffer[0], tempHeader.buffer[1];
      FirstTwoAt(tempHeader.buffer[..], input, frameStart);
      code := tempHeader.Process(newRequest);
      if code != 0 {
        BadFirstBytes(message, Rest(), chunkSize);
        NoFaultInHead(message, Rest(), chunkSize);
      }
    }

    /** The header in the buffer is the one at the front of the frame. */
    lemma HeaderShown()
      requires Base() && HeaderRead() && tempHeader.state == SECOND
      ensures tempHeader.buffer.Length == 14 && tempHeader.Halfway()
      ensures var b, s := tempHeader.buffer[..], Rest();
              && Whole(s) && Defined(s[0], 0) && position == frameStart + HeaderSize(s[1])
              && b[0] == s[0] && b[1] == s[1] && ParseHead(b) == ParseHead(s)
              && MaskingKey(b) == MaskingKey(s) && PayloadLength(b) == PayloadLength(s)
    {
      hide LogAgrees, MessageHeld, FirstFault, Decode, MaskingKey, PayloadLength, ReadsAsBinary, Defined;
      ghost var b := tempHeader.buffer[..];
      ghost var n := HeaderSize(b[1]);
      Stretch(input, frameStart, n);
      SameHeader(b, Rest());
    }

    method ProcessSecond() returns (code: nat)
      requires Base() && HeaderRead() && tempHeader.state == SECOND && newRequest == !message.open
      modifies tempHeader, tempHeader.buffer
      ensures tempHeader.buffer == old(tempHeader.buffer) && tempHeader.rsvc == old(tempHeader.rsvc)
      ensures code != 0 ==> Decode(message, Rest(), chunkSize) == [Cancel(code)] && Safe()
      ensures code == 0 ==>
                && Ahead(tempHeader) && position == frameStart + HeaderSize(Rest()[1])
                && tempHeader.state == if IsControl(Opcode(Rest()[0])) then CONTROL else DATA
    {
      hide LogAgrees, MessageHeld, FirstFault, Decode, HeaderRead, Defined, MaskingKey, PayloadLength, IsControl,
        Opcode, ReadsAsBinary, ShortLength, ExtendedSize, Masked;
      HeaderShown();
      code := tempHeader.Process(newRequest);
      if code != 0 {
        BadHead(message, Rest(), chunkSize);
        NoFaultInHead(message, Rest(), chunkSize);
      }
    }

    /** One stage of the header. */
    method ProcessHeader() returns (code: nat)
      requires Base() && Between() && LogAgrees() && HeaderRead()
      modifies tempHeader, tempHeader.buffer
      ensures Base() && Between() && LogAgrees() && tempHeader.buffer == old(tempHeader.buffer)
      ensures code != 0 ==> Decode(message, Rest(), chunkSize) == [Cancel(code)] && Safe()
      ensures code == 0 && tempHeader.state == SECOND ==>
                HeaderAwaited(tempHeader.nextReadSize) && old(tempHeader.state) == FIRST
      ensures code == 0 && tempHeader.state != SECOND ==>
                && Ahead(tempHeader) && position == frameStart + HeaderSize(Rest()[1])
                && tempHeader.state == if IsControl(Opcode(Rest()[0])) then CONTROL else DATA
    {
      hide LogAgrees, MessageHeld, Header.Halfway, FirstFault, Defined, IsControl, Opcode, Decode, HeadCode, Whole;
      if tempHeader.state == FIRST {
        code := ProcessFirst();
      } else {
        code := ProcessSecond();
      }
    }

    lemma PayloadShown(h: Header)
      requires Ahead(h)
      ensures h.payloadSize == PayloadLength(Rest())
    {}

    /** Asks for the payload of a control frame. */
    method StartControl()
      requires Base() && Between() && LogAgrees()
      requires Ahead(tempHeader) && position == frameStart + HeaderSize(Rest()[1]) && IsControl(Opcode(Rest()[0]))
      modifies this`pending, control
      ensures Base() && Between() && LogAgrees()
      ensures pending.AwaitControl? && ControlAwaited(pending.size)
      ensures fresh(control.buffer)
    {
      hide LogAgrees, Between, FirstFault, HeadCode, IsControl, Opcode, PayloadLength, Shows;
      ControlIsShort(message, Rest());
      PayloadShown(tempHeader);
      control.NewBuffer();
      pending := AwaitControl(tempHeader.payloadSize);
    }

    /** Where the payload of a control frame is in the stream. */
    lemma PayloadPlace(size: nat)
      requires Base() && ControlAwaited(size) && position + size <= |input|
      ensures Complete(Rest()) && Payload(Rest()) == input[position..position + size] && size < 126
      ensures frameStart + FrameSize(Rest()) == position + size
    {
      hide FirstFault, HeadCode, IsControl, Opcode, PayloadLength, ExtendedSize, Masked;
      assert input[frameStart..][HeaderSize(Rest()[1])..FrameSize(Rest())] == input[position..position + size];
    }

    /** The payload of a control frame arrives. */
    method ReceiveControl(size: nat)
      requires Base() && Between() && LogAgrees() && ControlAwaited(size) && position + size <= |input|
      modifies this`position, control.buffer
      ensures Base() && Between() && LogAgrees() && ControlRead() && position == old(position) + size
    {
      hide LogAgrees, Between, FirstFault, IsControl, Opcode, PayloadLength, HeaderSize, Ahead;
      PayloadPlace(size);
      CopyIn(control.buffer, 2, input[position..position + size]);
      position := position + size;
    }

    /** The answer to the control frame, as the one-shot decoder has it. */
    ghost function Answered(): Answer
      requires Complete(Rest())
      reads this`frameStart
    {
      Response(Rest()[0], Rest()[1], MaskingKey(Rest()), Payload(Rest()))
    }

    method ProcessControl() returns (code: nat)
      requires Base() && Between() && LogAgrees() && ControlRead()
      modifies control`size, control`state, control.buffer
      ensures Base() && Between() && LogAgrees()
      ensures control.size <= 129 == control.buffer.Length
      ensures CarriesOut(Answered(), code, control.state, control.buffer[..control.size])
    {
      hide LogAgrees, Between, FirstFault, HeadCode, IsControl, Opcode, PayloadLength, MaskingKey, Response, CarriesOut;
      code := control.Process(tempHeader);
    }

    /** On to the next frame. */
    ghost method NextFrame(next: Message, now: seq<nat>)
      requires Base() && Complete(Rest()) && position == frameStart + FrameSize(Rest())
      requires FirstFault(message, Rest(), chunkSize) == FirstFault(next, Rest()[FrameSize(Rest())..], chunkSize)
      requires !next.open ==> next == IDLE && now == []
      modifies this`frameStart, this`message, this`sizes
      ensures Base() && message == next && sizes == now && frameStart == position
      ensures Rest() == old(Rest()[FrameSize(Rest())..])
    {
      hide FirstFault, PayloadLength;
      assert Rest()[FrameSize(Rest())..] == input[position..];
      frameStart, message, sizes := position, next, now;
    }

    lemma IdleShown()
      requires Base()
      ensures chunkSize > 0 && (!message.open ==> message == IDLE && sizes == [])
    {}

    /** With this log, the session is right behind the current frame too. */
    ghost predicate Goes(now: seq<Event>)
      reads this`frameStart, this`message, this`sizes, this`ends
    {
      && chunkSize > 0 && Complete(Rest())
      && Tracks(input, chunkSize, now, ends, message, sizes, Rest()[FrameSize(Rest())..])
      && FirstFault(message, Rest(), chunkSize) == FirstFault(message, Rest()[FrameSize(Rest())..], chunkSize)
    }

    /** Goes past a control frame; the message in progress stays as it is. */
    method GoPast()
      requires Base() && Between() && Complete(Rest()) && position == frameStart + FrameSize(Rest())
      requires Goes(log)
      modifies this`pending, this`frameStart, this`message, this`sizes, tempHeader
      ensures Base() && Between() && LogAgrees() && pending.AwaitHeader? && HeaderAwaited(pending.size)
      ensures tempHeader.state == FIRST && fresh(tempHeader.buffer)
    {
      hide Base, MessageHeld, FirstFault, PayloadLength, Tracks, Header.Halfway;
      IdleShown();
      NextFrame(message, sizes);
      ReadHeader();
    }

    /** What each answer to the control frame leads to. */
    lemma ControlShown()
      requires Base() && LogAgrees() && ControlRead()
      ensures chunkSize > 0 && Complete(Rest()) && position == frameStart + FrameSize(Rest())
      ensures match Answered() {
                case Reject(code) => code == 1007 && Decode(message, Rest(), chunkSize) == [Cancel(1007)] && Safe()
                case Goodbye(reply) =>
                  && Ended(input, chunkSize, log + [WrittenLast(reply)], ends)
                  && FirstFault(IDLE, input, chunkSize) == NoFault
                case Reply(reply) => Goes(log + [Written(reply)])
                case Silence => Goes(log)
              }
    {
      hide FirstFault, HeadCode, IsControl, Opcode, PayloadLength, MaskingKey, Response, Tracks, Ended, Decode, Payload;
      ControlTracks(input, chunkSize, log, ends, message, sizes, Rest());
    }

    /** Answers a control frame. */
    method HandleControlRead()
      requires Base() && Between() && LogAgrees() && ControlRead()
      modifies this`pending, this`log, this`frameStart, this`message, this`sizes
      modifies tempHeader, control`size, control`state, control.buffer
      ensures Base()
      ensures pending.Gone? ==> Over()
      ensures !pending.Gone? ==> Between() && LogAgrees() && pending.AwaitHeader? && HeaderAwaited(pending.size)
      ensures pending.AwaitHeader? ==> tempHeader.state == FIRST
      ensures tempHeader.buffer == old(tempHeader.buffer) || fresh(tempHeader.buffer)
    {
      hide Base, Between, LogAgrees, Safe, Goes, FirstFault, HeadCode, IsControl, Opcode, PayloadLength, MaskingKey,
        Response, Ended, HeaderAwaited, ControlRead, Decode, Payload, Complete;
      ControlShown();
      var code := ProcessControl();
      if code != 0 {
        CancelSocket(code);
        return;
      }
      if control.state == KILL {
        log := log + [WrittenLast(control.buffer[..control.size])];
        pending := Gone;
      } else if control.state == PONG_RECEIVED {
        GoPast();
      } else if control.state == PING_RECEIVED {
        log := log + [Written(control.buffer[..control.size])];
        GoPast();
      } else {
        assert false;  // nothing but a control frame gets here
      }
    }

    method TakeHeader()
      requires Base() && Ahead(tempHeader)
      modifies header
      ensures Base() && Ahead(header) && header.buffer == tempHeader.buffer
    {
      hide FirstFault, HeadCode, PayloadLength, MaskingKey, ReadsAsBinary;
      header.Transfer(tempHeader);
    }

    /** A new message starts with an empty buffer and a checker at rest. */
    method PrepareBuffer()
      requires Base() && Between()
      modifies this`buffer, gather, gather.utf8
      ensures Base() && MessageHeld()
      ensures buffer == old(buffer) || (fresh(buffer) && buffer.chunks == [])
    {
      hide FirstFault, Utf8.Byte.Expecting, Utf8.Byte.Valid, Utf8.Byte.Ok;
      if newRequest {
        buffer := new ChunkVector<byte>(chunkSize, 0);
        gather.Reset();
      }
    }

    lemma AheadShown()
      requires Base() && Ahead(header) && !IsControl(Opcode(Rest()[0]))
      ensures DataAhead(message, Rest()) && header.payloadSize == PayloadLength(Rest())
    {}

    /** Nothing of the frame's payload has been read yet. */
    lemma FrameStarts()
      requires Ahead(header) && !IsControl(Opcode(Rest()[0]))
      requires position == frameStart + HeaderSize(Rest()[1]) <= |input|
      requires gather.Valid() && gather.utf8.Ok() && gather.OnSchedule(chunkSize) && gather.Packed(buffer)
      requires gather.done == gather.maskOffset == 0 && buffer.chunkSize == chunkSize
      requires gather.totalConsumed == |message.payload|
      requires gather.totalSize == |message.payload| + PayloadLength(Rest())
      requires buffer.Prefix(gather.totalConsumed) == message.payload
      requires gather.utf8.Expecting() == Utf8.Consume(Utf8.START, message.text)
      requires gather.sizes == sizes + [PayloadLength(Rest())]
      ensures ChunkRead(0)
    {
      hide HeadCode, IsControl, Opcode, PayloadLength, MaskingKey, ReadsAsBinary, PlainPart, Header.Decoded, Whole;
      hide Utf8.Byte.Expecting, Utf8.Byte.Valid, Utf8.Byte.Ok, Utf8.Consume, ChunkVector.Prefix;
      hide Gather.OnSchedule, Gather.Packed;
      NoPlain(Rest());
    }

    /** The total has wrapped around, or the frame can be read. */
    ghost predicate Started()
      reads this`frameStart, this`message, this`sizes, this`position, this`buffer, header, header.buffer, gather,
            gather.utf8, buffer, buffer.chunks, gather.chunk
    {
      if gather.totalConsumed <= gather.totalSize then ChunkRead(0) else AtFault()
    }

    method Announce()
      requires Base() && MessageHeld() && Ahead(header)
      requires position == frameStart + HeaderSize(Rest()[1]) && !IsControl(Opcode(Rest()[0]))
      modifies gather
      ensures Base()
      ensures Started()
    {
      hide FirstFault, Closable, HeadCode, IsControl, Opcode, PayloadLength, Ahead, ChunkRead, Gather.Packed;
      hide Utf8.Byte.Expecting, Utf8.Byte.Valid, Utf8.Byte.Ok, Utf8.Consume, ChunkVector.Prefix, Gather.OnSchedule;
      AheadShown();
      LengthInRange(Rest());
      gather.More(header.payloadSize, chunkSize);
      if gather.totalConsumed <= gather.totalSize {
        FrameStarts();
      } else {
        TotalAtFault(message, Rest(), chunkSize);
      }
    }

    /** A data frame begins: a new message starts with an empty buffer. */
    method StartData()
      requires Base() && Between() && LogAgrees()
      requires Ahead(tempHeader) && position == frameStart + HeaderSize(Rest()[1]) && !IsControl(Opcode(Rest()[0]))
      modifies this`buffer, header, gather, gather.utf8
      ensures Base() && LogAgrees()
      ensures Started()
      ensures buffer == old(buffer) || (fresh(buffer) && buffer.chunks == [])
      ensures header.buffer == tempHeader.buffer
    {
      hide LogAgrees, FirstFault, HeadCode, IsControl, Opcode, PayloadLength, MaskingKey, MessageHeld, Started, Shows;
      TakeHeader();
      PrepareBuffer();
      Announce();
    }

    lemma ChunkPlace(size: nat)
      requires ChunkAwaited(size)
      ensures size > 0 && gather.chunk != null && gather.chunk in buffer.chunks
    {
      hide InFrame;
      ghost var front := gather.WhereNext(buffer);
    }

    /** What is known while a stretch of the frame is on its way. */
    lemma AwaitedShown(size: nat)
      requires ChunkAwaited(size)
      ensures Counted() && buffer.chunkSize == chunkSize && gather.Scheduled(buffer) && size == gather.nextConsume
      ensures buffer.Prefix(gather.totalConsumed) == message.payload + PlainPart(Rest(), gather.done)
      ensures position == frameStart + HeaderSize(Rest()[1]) + gather.done
      ensures gather.done == 0 || gather.totalConsumed % chunkSize == 0
      ensures Covered(message, Rest(), gather.done, chunkSize) && ChunkFits(gather.totalConsumed, chunkSize)
    {}

    /** Where the awaited stretch is in the stream. */
    lemma StretchPlace(size: nat)
      requires ChunkAwaited(size) && position + size <= |input|
      ensures var n := HeaderSize(Rest()[1]) + gather.done;
              && n + size <= |Rest()| && position == frameStart + n
              && Rest()[n..n + size] == input[position..position + size]
    {
      hide PlainPart, HeaderSize, PayloadLength, Ahead, IsControl, Opcode, Checked, Utf8.Consume, ChunkVector.Prefix;
      hide Gather.Scheduled, Gather.Valid, Gather.InStep, Gather.OnSchedule, Utf8.Byte.Ok, Utf8.Byte.Expecting;
      Within(input, frameStart, HeaderSize(Rest()[1]) + gather.done, size);
    }

    lemma ChunkArrived(size: nat)
      requires Counted() && buffer.chunkSize == chunkSize && gather.Scheduled(buffer) && 0 < size == gather.nextConsume
      requires buffer.Prefix(gather.totalConsumed) == message.payload + PlainPart(Rest(), gather.done)
      requires var n := HeaderSize(Rest()[1]) + gather.done;
               && n + size <= |Rest()| && position == frameStart + n + size <= |input|
               && gather.Raw(size) == Rest()[n..n + size]
      requires Covered(message, Rest(), gather.done, chunkSize) && ChunkFits(gather.totalConsumed, chunkSize)
      ensures ChunkRead(size)
    {
      hide Counted, PlainPart, HeaderSize, Rest, Gather.Scheduled, Gather.Raw, ChunkVector.Prefix;
    }

    /** The bytes of a scheduled read arrive in their chunk, behind what is there already. */
    method ReceiveChunk(size: nat)
      requires Base() && LogAgrees() && ChunkAwaited(size) && position + size <= |input|
      modifies this`position, gather.chunk
      ensures Base() && LogAgrees() && ChunkRead(size) && position == old(position) + size
      ensures gather.done == 0 || gather.totalConsumed % chunkSize == 0
    {
      hide LogAgrees, FirstFault, Counted, ChunkAwaited, ChunkRead, PlainPart, HeaderSize, Gather.Scheduled, Gather.Raw,
        ChunkVector.Prefix, ChunkVector.Valid, Rest;
      ChunkPlace(size);
      AwaitedShown(size);
      StretchPlace(size);
      FillChunk(gather, buffer, input[position..position + size]);
      position := position + size;
      ChunkArrived(size);
    }

    ghost function NewPlain(amount: nat): seq<byte>
      requires header.buffer.Length == 14 && header.mask <= 10
      reads header, header.buffer, gather, gather.chunk
    {
      Unmask(gather.Raw(amount), header.Key(), gather.done)
    }

    lemma FinShown()
      requires Ahead(header)
      ensures header.IsFin() == Fin(Rest()[0])
    {}

    /** `done` bytes of the frame have been taken in; the buffer is closed if they are the last ones of a message. */
    ghost predicate Taken(done: nat)
      reads this`frameStart, this`message, this`sizes, this`newRequest, this`buffer, header, header.buffer, gather,
            gather.utf8, buffer, buffer.chunks
    {
      && Counted() && gather.done == done
      && var now := message.payload + PlainPart(Rest(), done);
      if newRequest && done == PayloadLength(Rest()) then
        chunkSize > 0 && (Closable(gather.totalSize, chunkSize) ==> buffer.Flat() == now)
      else
        buffer.Prefix(gather.totalConsumed) == now
    }

    /** What the next stretch adds to the message and to the text. */
    lemma StretchAdds(done: nat, amount: nat, plain: seq<byte>)
      requires Whole(Rest()) && header.isBinary == ReadsAsBinary(Rest()[0])
      requires HeaderSize(Rest()[1]) + done + amount <= |Rest()|
      requires var n := HeaderSize(Rest()[1]) + done; plain == Unmask(Rest()[n..n + amount], MaskingKey(Rest()), done)
      ensures Checked(CheckedPart(message, Rest(), done), header.isBinary, plain) ==
              CheckedPart(message, Rest(), done + amount)
      ensures message.payload + PlainPart(Rest(), done) + plain == message.payload + PlainPart(Rest(), done + amount)
    {
      hide HeaderSize, PlainPart, MaskingKey, Checked, Utf8.Consume, Unmask, ReadsAsBinary;
      PlainNext(Rest(), done, amount);
      CheckedMore(Utf8.Consume(Utf8.START, message.text), header.isBinary, PlainPart(Rest(), done), plain);
      Associative(message.payload, PlainPart(Rest(), done), plain);
    }

    lemma KeyShown()
      requires Ahead(header)
      ensures header.Decoded() && header.Key() == MaskingKey(Rest()) && header.isBinary == ReadsAsBinary(Rest()[0])
    {}

    /** What the gatherer starts from. */
    lemma BeforeRead(amount: nat)
      requires Base() && ChunkRead(amount) && newRequest == header.IsFin()
      ensures header.Decoded() && Ahead(header) && !IsControl(Opcode(Rest()[0]))
      ensures gather.Valid() && gather.utf8.Ok() && gather.InStep(header.Key()) && gather.OnSchedule(chunkSize)
      ensures if amount == 0 then gather.Packed(buffer) else gather.Scheduled(buffer) && amount == gather.nextConsume
      ensures buffer.chunkSize == chunkSize
      ensures gather.totalSize == |message.payload| + PayloadLength(Rest())
      ensures gather.totalConsumed == |message.payload| + gather.done <= gather.totalSize
      ensures gather.sizes == sizes + [PayloadLength(Rest())]
      ensures HeaderSize(Rest()[1]) + gather.done + amount <= |Rest()|
      ensures Checked(gather.utf8.Expecting(), header.isBinary, NewPlain(amount)) ==
              CheckedPart(message, Rest(), gather.done + amount)
      ensures buffer.Prefix(gather.totalConsumed) + NewPlain(amount) ==
              message.payload + PlainPart(Rest(), gather.done + amount)
    {
      hide FirstFault, HeadCode, IsControl, Opcode, PayloadLength, HeaderSize, PlainPart, NextRead, MaskingKey, Checked;
      hide Utf8.Byte.Expecting, Utf8.Byte.Valid, Utf8.Byte.Ok, Utf8.Consume, ChunkVector.Prefix, Unmask, Header.Decoded;
      hide Gather.OnSchedule, Gather.Scheduled, Gather.Packed, Gather.InStep, Gather.Valid, Gather.Raw, ReadsAsBinary;
      KeyShown();
      StretchAdds(gather.done, amount, NewPlain(amount));
    }

    lemma AfterRead(done: nat)
      requires Ahead(header) && !IsControl(Opcode(Rest()[0])) && HeaderSize(Rest()[1]) + done <= |Rest()|
      requires gather.Valid() && gather.utf8.Ok() && gather.InStep(header.Key()) && gather.OnSchedule(chunkSize)
      requires gather.done == done && gather.totalSize == |message.payload| + PayloadLength(Rest())
      requires gather.totalConsumed == |message.payload| + done <= gather.totalSize
      requires gather.sizes == sizes + [PayloadLength(Rest())]
      requires gather.utf8.Expecting() == CheckedPart(message, Rest(), done)
      requires var now := message.payload + PlainPart(Rest(), done);
               if newRequest && gather.totalConsumed == gather.totalSize then
                 chunkSize > 0 && (Closable(gather.totalSize, chunkSize) ==> buffer.Flat() == now)
               else buffer.Prefix(gather.totalConsumed) == now
      ensures Taken(done)
    {
      hide HeadCode, IsControl, Opcode, PayloadLength, PlainPart, MaskingKey, Checked;
      hide Utf8.Byte.Expecting, Utf8.Byte.Ok, Utf8.Byte.Valid, Utf8.Consume, ChunkVector.Prefix, ChunkVector.Flat;
      hide Gather.OnSchedule, Gather.InStep;
    }

    /** The gatherer takes in the next stretch of the frame. */
    method CallGather(amount: nat) returns (code: nat)
      requires Base() && ChunkRead(amount) && newRequest == header.IsFin()
      modifies gather, gather.utf8, buffer, buffer.chunks
      ensures Base() && Ahead(header) && newRequest == header.IsFin() && buffer.chunkSize == chunkSize
      ensures forall c :: c in buffer.chunks ==> c in old(buffer.chunks) || fresh(c)
      ensures var done := old(gather.done) + amount;
              && HeaderSize(Rest()[1]) + done <= |Rest()|
              && var e := CheckedPart(message, Rest(), done);
              && code == (if e == Utf8.Failed || (newRequest && done == PayloadLength(Rest()) && e != Utf8.START)
                          then 1007 else 0)
              && (code == 0 ==> Taken(done))
      ensures code == 0 && gather.totalConsumed != gather.totalSize ==>
                && gather.Placed(buffer)
                && (gather.Scheduled(buffer) <==> ChunkFits(gather.totalConsumed, chunkSize))
                && (amount != 0 ==> gather.totalConsumed % chunkSize == 0)
      ensures code == 0 && gather.totalConsumed == gather.totalSize ==>
                if newRequest then Closable(gather.totalSize, chunkSize) ==> gather.Delivered(buffer)
                else gather.Packed(buffer)
    {
      hide FirstFault, Closable, Counted, Ahead, IsControl, Opcode, ChunkRead, Taken, CheckedPart, Checked, PlainPart,
        PayloadLength, HeaderSize, Unmask, Gather.Valid, Gather.InStep, Gather.OnSchedule, Gather.Scheduled,
        Gather.Packed, Gather.Delivered, Gather.Placed, Ask, ChunkFits, ChunkVector.Valid, ChunkVector.Prefix,
        ChunkVector.Flat, Concat, Header.Decoded, Utf8.Byte.Expecting, Utf8.Byte.Ok, Utf8.Consume, Whole, Complete;
      BeforeRead(amount);
      ghost var done := gather.done + amount;
      code := gather.ReadChunk(header, buffer, amount, newRequest);
      if code == 0 {
        AfterRead(done);
      }
    }

    /** Where a read ends: with the frame, or with a chunk. */
    lemma ReadEnds(amount: nat)
      requires Base() && ChunkRead(amount)
      ensures HeaderSize(Rest()[1]) + gather.done + amount <= |Rest()|
      ensures gather.done + amount <= PayloadLength(Rest())
      ensures amount > 0 && gather.done + amount < PayloadLength(Rest()) ==>
                (|message.payload| + gather.done + amount) % chunkSize == 0
      ensures amount == 0 ==> CheckedPart(message, Rest(), gather.done) != Utf8.Failed
      ensures Covered(message, Rest(), gather.done + amount, chunkSize)
      ensures |message.payload| + PayloadLength(Rest()) < U64
    {
      hide FirstFault, HeadCode, IsControl, Opcode, PayloadLength, PlainPart, NextRead, Utf8.Consume,
        ChunkVector.Prefix, ChunkFits;
      hide Shows, ReadsAsBinary, MaskingKey, Gather.InStep, Gather.Raw, Utf8.Byte.Valid, Unmask;
      if amount > 0 {
        ghost var front := gather.WhereNext(buffer);
        NextIsCut(gather.totalConsumed, gather.totalSize, chunkSize);
        CoveredNext(message, Rest(), gather.done, amount, chunkSize);
      }
    }

    /** What the gatherer refuses ends the connection. */
    lemma Refused(done: nat)
      requires Base() && Ahead(header) && !IsControl(Opcode(Rest()[0]))
      requires HeaderSize(Rest()[1]) + done <= |Rest()| && done <= PayloadLength(Rest())
      requires done < PayloadLength(Rest()) ==> (|message.payload| + done) % chunkSize == 0
      requires CheckedPart(message, Rest(), done) == Utf8.Failed
               || (Fin(Rest()[0]) && done == PayloadLength(Rest()) && CheckedPart(message, Rest(), done) != Utf8.START)
      requires |message.payload| + PayloadLength(Rest()) < U64 && Covered(message, Rest(), done, chunkSize)
      ensures Decode(message, Rest(), chunkSize) == [Cancel(1007)] && Safe()
    {
      hide FirstFault, HeadCode, IsControl, Opcode, PlainPart, Decode, CheckedPart, Shows;
      DataRefused(message, Rest(), done, chunkSize);
      RefusedNoFault(message, Rest(), done, chunkSize);
    }

    lemma ReadShown(amount: nat)
      requires ChunkRead(amount)
      ensures Whole(Rest()) && position == frameStart + HeaderSize(Rest()[1]) + (gather.done + amount)
      ensures Ahead(header) && !IsControl(Opcode(Rest()[0]))
      ensures amount == 0 ==> gather.done == 0
    {}

    /** More is to come: the next read is the right one, or goes too far. */
    lemma StillWaiting(done: nat)
      requires Base() && Ahead(header) && Taken(done) && gather.totalConsumed != gather.totalSize
      requires gather.Placed(buffer) && (gather.Scheduled(buffer) <==> ChunkFits(gather.totalConsumed, chunkSize))
      requires done == 0 || gather.totalConsumed % chunkSize == 0
      requires Covered(message, Rest(), done, chunkSize) && CheckedPart(message, Rest(), done) != Utf8.Failed
      requires buffer.chunkSize == chunkSize && position == frameStart + HeaderSize(Rest()[1]) + done
      ensures gather.totalConsumed < gather.totalSize
      ensures if gather.nextConsume == NextRead(gather.totalConsumed, gather.totalSize, chunkSize)
              then ChunkAwaited(gather.nextConsume) else AtFault()
    {
      hide FirstFault, HeadCode, IsControl, Opcode, PayloadLength, PlainPart, Checked, Utf8.Consume, Gather.Placed,
        ChunkVector.Prefix, ChunkVector.Flat, Gather.OnSchedule, Gather.InStep, Utf8.Byte.Expecting, Utf8.Byte.Ok,
        NextRead, ChunkFits, CheckedPart, Shows;
      if !ChunkFits(gather.totalConsumed, chunkSize) {
        AskAtFault(message, Rest(), done, chunkSize);
      }
    }

    lemma AllTaken(done: nat)
      requires Base() && Ahead(header) && Taken(done) && gather.totalConsumed == gather.totalSize
      requires CheckedPart(message, Rest(), done) != Utf8.Failed
      requires newRequest && done == PayloadLength(Rest()) ==> CheckedPart(message, Rest(), done) == Utf8.START
      requires if newRequest then Closable(gather.totalSize, chunkSize) ==> gather.Delivered(buffer)
               else gather.Packed(buffer)
      requires Covered(message, Rest(), done, chunkSize)
      requires buffer.chunkSize == chunkSize && position == frameStart + HeaderSize(Rest()[1]) + done
      requires newRequest == Fin(Rest()[0])
      ensures FrameHeld()
    {
      hide FirstFault, HeadCode, IsControl, Opcode, PayloadLength, PlainPart, Checked, Utf8.Consume, Gather.Packed,
        Gather.Delivered, ChunkVector.Prefix, ChunkVector.Flat, Gather.OnSchedule, Gather.InStep;
    }

    /** The gatherer's verdict on the frame so far, as the one-shot decoder sees it. */
    method GatherFrame(amount: nat) returns (code: nat)
      requires Base() && LogAgrees() && ChunkRead(amount) && newRequest == header.IsFin()
      modifies gather, gather.utf8, buffer, buffer.chunks
      ensures Base() && LogAgrees()
      ensures code != 0 ==> Decode(message, Rest(), chunkSize) == [Cancel(code)] && Safe()
      ensures code == 0 && gather.totalConsumed != gather.totalSize ==>
                && gather.totalConsumed < gather.totalSize
                && if gather.nextConsume == NextRead(gather.totalConsumed, gather.totalSize, chunkSize)
                   then ChunkAwaited(gather.nextConsume) else AtFault()
      ensures code == 0 && gather.totalConsumed == gather.totalSize ==> FrameHeld()
      ensures forall c :: c in buffer.chunks ==> c in old(buffer.chunks) || fresh(c)
    {
      hide Base, LogAgrees, Decode, CheckedPart, IsControl, Opcode, PayloadLength, HeaderSize, Taken, ChunkRead, Ahead,
        ChunkAwaited, FrameHeld, Gather.Scheduled, Gather.Packed, Gather.Delivered, Gather.Placed, Fin, Header.IsFin,
        NextRead, ChunkFits, Covered, AtFault, Safe;
      ReadEnds(amount);
      ReadShown(amount);
      ghost var done := gather.done + amount;
      FinShown();
      code := CallGather(amount);
      if code != 0 {
        Refused(done);
      } else if gather.totalConsumed != gather.totalSize {
        StillWaiting(done);
      } else {
        AllTaken(done);
      }
    }

    lemma BufferShown(amount: nat)
      requires ChunkRead(amount)
      ensures header.buffer.Length == 14
    {}

    lemma KindShown()
      requires Ahead(header)
      ensures header.isBinary == ReadsAsBinary(Rest()[0])
    {}

    /** What a data frame that has been taken in shows. */
    lemma FrameShown()
      requires Base() && FrameHeld()
      ensures DataAhead(message, Rest()) && Complete(Rest()) && position == frameStart + FrameSize(Rest())
      ensures newRequest == Fin(Rest()[0]) && Counts(message, Rest(), chunkSize)
      ensures gather.totalSize == gather.totalConsumed == |message.payload| + PayloadLength(Rest())
      ensures gather.sizes == sizes + [PayloadLength(Rest())] && gather.OnSchedule(chunkSize)
      ensures CheckedPart(message, Rest(), PayloadLength(Rest())) != Utf8.Failed
      ensures newRequest ==> CheckedPart(message, Rest(), PayloadLength(Rest())) == Utf8.START
      ensures header.isBinary == ReadsAsBinary(Rest()[0])
    {
      hide FirstFault, HeadCode, IsControl, Opcode, PlainPart, CheckedPart, Utf8.Consume, Shows, Covered;
      hide Utf8.Byte.Valid, Gather.Delivered, Gather.Packed, ChunkVector.Prefix, ChunkVector.Flat, Closable;
      KindShown();
    }

    lemma MessageShown()
      requires Base() && FrameHeld() && newRequest && Closable(gather.totalSize, chunkSize)
      ensures gather.Delivered(buffer) && buffer.chunkSize == chunkSize > 0
      ensures buffer.Flat() == message.payload + PlainPart(Rest(), PayloadLength(Rest()))
    {}

    lemma EmptyParts()
      requires gather.Delivered(buffer) && buffer.Length() == 0
      ensures buffer.Flat() == [] && PartEvents(Split(buffer.Flat(), buffer.chunkSize)) == [Last([])]
    {
      buffer.LengthIsFlat();
    }

    /** One part for each chunk, the last one marked as such. */
    method SendParts()
      requires gather.Delivered(buffer) && buffer.chunkSize == chunkSize && buffer.Length() > 0
      modifies this`log
      ensures log == old(log) + PartEvents(Split(buffer.Flat(), chunkSize))
    {
      hide Split;
      ChunksAreParts(buffer, gather.totalSize);
      ghost var start, parts := log, Contents(buffer.chunks);
      var k := 0;
      while k < |buffer.chunks|
        invariant k <= |buffer.chunks|
        invariant log + LaterParts(parts, k) == start + PartEvents(parts)
      {
        ContentsAt(buffer.chunks, k);
        ghost var sent := log;
        if k + 1 == |buffer.chunks| {
          log := log + [Last(buffer.chunks[k][..])];
        } else {
          log := log + [More(buffer.chunks[k][..])];
        }
        NextPart(parts, k, sent);
        k := k + 1;
      }
    }

    /** Hands the message over to the dealer, part by part. */
    method Request()
      requires gather.Delivered(buffer) && buffer.chunkSize == chunkSize > 0
      modifies this`log
      ensures log == old(log) + Render(Deliver(header.isBinary, buffer.Flat()), chunkSize)
    {
      hide PartEvents, Split, Concat, Render;
      RenderParts(header.isBinary, buffer.Flat(), chunkSize, log);
      log := log + [Opened(header.isBinary)];
      if buffer.Size() == 0 {
        log := log + [Last([])];
        EmptyParts();
      } else {
        SendParts();
      }
      log := log + [Closed];
    }

    /** All the reads of the message have been made. */
    lemma ReadsDone()
      requires gather.OnSchedule(chunkSize) && gather.totalConsumed == gather.totalSize
      ensures gather.ends == MessageReads(0, gather.sizes, chunkSize)
    {
      hide MessageReads, FrameReads, Sum;
      NoReads(gather.totalSize, chunkSize);
      Units(gather.ends);
    }

    lemma TracksShown()
      requires LogAgrees()
      ensures chunkSize > 0 && Tracks(input, chunkSize, log, ends, message, sizes, Rest())
    {}

    lemma FaultShown()
      requires chunkSize > 0 && FirstFault(message, Rest(), chunkSize) == FaultAt(message, Rest())
      ensures AtFault()
    {}

    /** The last frame of a message, as the one-shot decoder sees it. */
    lemma LastAccepted()
      requires Base() && LogAgrees() && FrameHeld() && newRequest
      ensures Complete(Rest()) && position == frameStart + FrameSize(Rest())
      ensures var payload := message.payload + PlainPart(Rest(), PayloadLength(Rest()));
              Tracks(input, chunkSize, log + Render(Deliver(header.isBinary, payload), chunkSize), ends + [gather.ends],
                     IDLE, [], Rest()[FrameSize(Rest())..])
      ensures if Closable(gather.totalSize, chunkSize) then
                FirstFault(message, Rest(), chunkSize) == FirstFault(IDLE, Rest()[FrameSize(Rest())..], chunkSize)
              else AtFault()
    {
      hide *;
      FrameShown();
      TracksShown();
      ReadsDone();
      DataTracks(input, chunkSize, log, ends, message, sizes, Rest());
      DataFaults(message, Rest(), chunkSize);
      if !Closable(gather.totalSize, chunkSize) {
        FaultShown();
      }
    }

    /** The last chunk has been closed with a wrong size. */
    lemma ClosedWrongly()
      requires Base() && LogAgrees() && FrameHeld() && newRequest && !Closable(gather.totalSize, chunkSize)
      ensures AtFault()
    {
      hide *;
      LastAccepted();
    }

    /** The last frame of a message: the message goes to the dealer. */
    method FinishMessage()
      requires Base() && LogAgrees() && FrameHeld() && newRequest && Closable(gather.totalSize, chunkSize)
      modifies this`log, this`frameStart, this`message, this`sizes, this`ends
      ensures Base() && LogAgrees() && Between() && position == frameStart
    {
      hide Base, FrameHeld, PayloadLength, PlainPart, Tracks, Render, Gather.Delivered, ChunkVector.Flat, Closable,
        FirstFault;
      LastAccepted();
      MessageShown();
      Request();
      ends := ends + [gather.ends];
      NextFrame(IDLE, []);
    }

    /** A fragment that is not the last one stays in the buffer. */
    ghost method FinishFragment()
      requires Base() && LogAgrees() && FrameHeld() && !newRequest
      modifies this`frameStart, this`message, this`sizes
      ensures Base() && LogAgrees() && Between() && position == frameStart
    {
      hide FirstFault, HeadCode, IsControl, Opcode, PlainPart, CheckedPart, Tracks, Utf8.Consume, Render, Shows;
      hide Utf8.Byte.Expecting, Utf8.Byte.Valid, Utf8.Byte.Ok, Gather.Packed, ChunkVector.Prefix, Counts, Closable;
      FrameShown();
      DataTracks(input, chunkSize, log, ends, message, sizes, Rest());
      DataFaults(message, Rest(), chunkSize);
      NextFrame(NextMessage(message, Rest()), gather.sizes);
    }

    /** Goes on with the current data frame, or with the next frame.  `previousRead` bytes have just been put into the
        buffer. */
    method ReadChunk(previousRead: nat)
      requires Base() && LogAgrees() && ChunkRead(previousRead)
      modifies this`newRequest, this`pending, this`log, this`frameStart, this`message, this`sizes, this`ends
      modifies tempHeader, gather, gather.utf8, buffer, buffer.chunks
      ensures Base()
      ensures pending.Gone? ==> Over()
      ensures pending.Lost? ==> LogAgrees() && AtFault()
      ensures pending.AwaitChunk? ==> LogAgrees() && ChunkAwaited(pending.size)
      ensures pending.AwaitHeader? ==>
                Between() && LogAgrees() && HeaderAwaited(pending.size) && tempHeader.state == FIRST
      ensures !pending.AwaitControl?
      ensures tempHeader.buffer == old(tempHeader.buffer) || fresh(tempHeader.buffer)
      ensures forall c :: c in buffer.chunks ==> c in old(buffer.chunks) || fresh(c)
    {
      hide Base, LogAgrees, Between, ChunkRead, ChunkAwaited, FrameHeld, Over, Decode, AtFault, Safe, Closable,
        NextRead;
      BufferShown(previousRead);
      newRequest := header.IsFin();
      IdleShown();
      var code := GatherFrame(previousRead);
      if code != 0 {
        CancelSocket(code);
        return;
      }
      if gather.totalConsumed != gather.totalSize {
        if gather.nextConsume == NextRead(gather.totalConsumed, gather.totalSize, chunkSize) {
          pending := AwaitChunk(gather.nextConsume);
        } else {
          pending := Lost;  // the chunk ends at 2^64 or behind it
        }
        return;
      }
      if newRequest {
        if !Closable(gather.totalSize, chunkSize) {
          ClosedWrongly();
          pending := Lost;  // the sum that closes the last chunk has wrapped around
          return;
        }
        FinishMessage();
      } else {
        FinishFragment();
      }
      ReadHeader();
    }

    /** How many stages of the current frame may still come without another byte. */
    ghost function Rank(): nat
      reads this`pending, tempHeader
    {
      match pending
      case AwaitHeader(_) => if tempHeader.state == FIRST then 0 else 2
      case AwaitControl(_) => 1
      case AwaitChunk(_) => 1
      case Gone => 0
      case Lost => 0
    }

    lemma StartShown()
      requires Started()
      ensures if gather.totalConsumed <= gather.totalSize then ChunkRead(0) else AtFault()
    {}

    /** Goes on with a frame that has just begun. */
    method BeginRead()
      requires Base() && LogAgrees() && Started()
      modifies this`newRequest, this`pending, this`log, this`frameStart, this`message, this`sizes, this`ends
      modifies tempHeader, gather, gather.utf8, buffer, buffer.chunks
      ensures Base()
      ensures pending.Gone? ==> Over()
      ensures pending.Lost? ==> LogAgrees() && AtFault()
      ensures pending.AwaitChunk? ==> LogAgrees() && ChunkAwaited(pending.size)
      ensures pending.AwaitHeader? ==>
                Between() && LogAgrees() && HeaderAwaited(pending.size) && tempHeader.state == FIRST
      ensures !pending.AwaitControl?
      ensures tempHeader.buffer == old(tempHeader.buffer) || fresh(tempHeader.buffer)
      ensures forall c :: c in buffer.chunks ==> c in old(buffer.chunks) || fresh(c)
    {
      hide *;
      StartShown();
      if gather.totalConsumed > gather.totalSize {
        pending := Lost;  // the total has wrapped around
      } else {
        ReadChunk(0);
      }
    }

    method HandleData()
      requires Base() && Between() && LogAgrees() && header != tempHeader
      requires Ahead(tempHeader) && position == frameStart + HeaderSize(Rest()[1]) && !IsControl(Opcode(Rest()[0]))
      modifies this, tempHeader, header, gather, gather.utf8, buffer, buffer.chunks
      ensures Valid() && position == old(position) && Rank() < 2
      ensures fresh(Repr() - old(Repr()))
    {
      hide Base, LogAgrees, Between, HeaderAwaited, ControlAwaited, ChunkAwaited, ChunkRead, Ahead, Over, AtFault,
        Started, IsControl, Opcode;
      StartData();
      BeginRead();
    }

    lemma FinSet()
      requires Ahead(tempHeader) && IsControl(Opcode(Rest()[0]))
      ensures tempHeader.buffer.Length == 14 && tempHeader.IsFin()
    {
      ControlIsShort(message, Rest());
    }

    lemma TwoHeaders()
      requires Base()
      ensures header != tempHeader
    {}

    /** A stage of the header is there: refuses the frame, or reads on. */
    method HandleReadHeader()
      requires Base() && Between() && LogAgrees() && HeaderRead()
      modifies this, tempHeader, tempHeader.buffer, header, gather, gather.utf8, control, buffer, buffer.chunks
      ensures Valid() && position == old(position)
      ensures fresh(Repr() - old(Repr()))
      ensures Rank() < 2 || (old(tempHeader.state) == FIRST && pending.AwaitHeader?)
    {
      hide Base, LogAgrees, Between, HeaderRead, HeaderAwaited, ControlAwaited, ChunkAwaited, ChunkRead, Ahead,
        Ended, Decode, IsControl, Opcode, HeadCode;
      TwoHeaders();
      var code := ProcessHeader();
      if code != 0 {
        CancelSocket(code);
        return;
      }
      if tempHeader.state == CONTROL {
        FinSet();
        if !tempHeader.IsFin() {
          assert false;  // refused by the header already
        }
        StartControl();
      } else if tempHeader.state == DATA {
        HandleData();
      } else {
        pending := AwaitHeader(tempHeader.nextReadSize);
      }
    }

    /** The size of the read that is outstanding. */
    function Requested(): nat
      requires pending.Reads()
      reads this`pending
    {
      pending.size
    }

    lemma StageSize(size: nat)
      requires HeaderAwaited(size)
      ensures size > 0 || tempHeader.state == SECOND
    {}

    method StepHeader(size: nat)
      requires Base() && Between() && LogAgrees() && HeaderAwaited(size) && position + size <= |input|
      modifies Repr()
      ensures Valid() && fresh(Repr() - old(Repr())) && position == old(position) + size
      ensures size > 0 || (old(tempHeader.state) == SECOND && Rank() < 2)
    {
      hide Base, LogAgrees, Between, HeaderRead, HeaderAwaited, Valid, Rank;
      StageSize(size);
      ReceiveHeader(size);
      HandleReadHeader();
    }

    method StepControl(size: nat)
      requires Base() && Between() && LogAgrees() && ControlAwaited(size) && position + size <= |input|
      modifies Repr()
      ensures Valid() && fresh(Repr() - old(Repr())) && position == old(position) + size && Rank() == 0
    {
      hide Base, LogAgrees, Between, HeaderAwaited, ControlAwaited, ControlRead, Ended;
      ReceiveControl(size);
      HandleControlRead();
    }

    method StepChunk(size: nat)
      requires Base() && LogAgrees() && ChunkAwaited(size) && position + size <= |input|
      modifies Repr()
      ensures Valid() && fresh(Repr() - old(Repr())) && position == old(position) + size && size > 0
    {
      hide Base, LogAgrees, Between, HeaderAwaited, ChunkAwaited, ChunkRead, Ended;
      ChunkPlace(size);
      ReceiveChunk(size);
      ReadChunk(size);
    }

    /** The bytes that were asked for arrive, exactly as many, and their callback runs. */
    method Step()
      requires Valid() && pending.Reads() && position + Requested() <= |input|
      modifies Repr()
      ensures Valid() && fresh(Repr() - old(Repr()))
      ensures position == old(position) + old(Requested())
      ensures position > old(position) || Rank() < old(Rank())
    {
      hide Base, LogAgrees, Between, HeaderAwaited, ControlAwaited, ChunkAwaited, Ended, Repr;
      match pending
      case AwaitHeader(size) => StepHeader(size);
      case AwaitControl(size) => StepControl(size);
      case AwaitChunk(size) => StepChunk(size);
    }

    lemma FirstTwoRead(size: nat)
      requires HeaderAwaited(size) && tempHeader.state == SECOND && tempHeader.rsvc == 0
      ensures |Rest()| >= 2 && Defined(Rest()[0], 0) && size == HeaderSize(Rest()[1]) - 2
    {
      hide Defined, Masked, ShortLength, ExtendedSize;
      FirstTwoAt(tempHeader.buffer[..], input, frameStart);
    }

    lemma NoHeader(size: nat)
      requires Base() && LogAgrees() && HeaderAwaited(size) && position + size > |input|
      ensures Over()
    {
      hide FirstFault, Tracks, Ended, Decode;
      if tempHeader.state == SECOND {
        FirstTwoRead(size);
      }
      WaitingForHead(message, Rest(), chunkSize);
      NoFaultInHead(message, Rest(), chunkSize);
      TracksStuck(input, chunkSize, log, ends, message, sizes, Rest());
    }

    lemma NoControl(size: nat)
      requires Base() && LogAgrees() && ControlAwaited(size) && position + size > |input|
      ensures Over()
    {
      hide FirstFault, Tracks, Ended, Decode, HeadCode, IsControl, Opcode, PayloadLength, MaskingKey;
      WaitingForControl(message, Rest(), chunkSize);
      NoFaultInControl(message, Rest(), chunkSize);
      TracksStuck(input, chunkSize, log, ends, message, sizes, Rest());
    }

    lemma NextIs(size: nat)
      requires ChunkAwaited(size)
      ensures size == NextRead(gather.totalConsumed, gather.totalSize, chunkSize)
      ensures size <= gather.totalSize - gather.totalConsumed
    {
      hide Ahead, NextRead, Utf8.Byte.Expecting, Utf8.Byte.Valid, Utf8.Byte.Ok, PlainPart, ChunkVector.Prefix;
      ghost var front := gather.WhereNext(buffer);
    }

    /** Nothing has been refused so far, so the text can be continued. */
    lemma TextGoesOn()
      requires Base() && InFrame()
      ensures Opcode(Rest()[0]) != BINARY ==> Utf8.Extendable(message.text + PlainPart(Rest(), gather.done))
    {
      hide FirstFault, PlainPart, Utf8.Consume, Utf8.Extendable, Utf8.Byte.Valid, Unmask;
      hide ChunkVector.Prefix, NextRead, MaskingKey, PayloadLength;
      CheckedText(message.text, header.isBinary, PlainPart(Rest(), gather.done));
      DataBinary(message, Rest(), gather.done);
    }

    lemma NoChunk(size: nat)
      requires Base() && LogAgrees() && ChunkAwaited(size) && position + size > |input|
      ensures Over()
    {
      hide FirstFault, Tracks, Ended, Decode, HeadCode, IsControl, Opcode, PayloadLength, MaskingKey, PlainPart;
      hide Utf8.Consume, Utf8.Extendable, Utf8.Byte.Expecting, Utf8.Byte.Valid, Utf8.Byte.Ok;
      hide ChunkVector.Prefix, NextRead;
      NextIs(size);
      TextGoesOn();
      WaitingForData(message, Rest(), gather.done, chunkSize);
      WaitingCounts(message, Rest(), gather.done, chunkSize);
      DataCounts(message, Rest(), chunkSize);
      TracksStuck(input, chunkSize, log, ends, message, sizes, Rest());
    }

    /** When fewer bytes are left than the session has asked for, there is nothing more to decode. */
    lemma Waiting()
      requires Valid() && pending.Reads() && position + Requested() > |input|
      ensures Over()
    {
      hide Base, LogAgrees, Between, HeaderAwaited, ControlAwaited, ChunkAwaited, Over;
      match pending
      case AwaitHeader(size) => NoHeader(size);
      case AwaitControl(size) => NoControl(size);
      case AwaitChunk(size) => NoChunk(size);
    }

    lemma Stopped()
      requires Base() && LogAgrees() && AtFault()
      ensures Sound(input, chunkSize) != input
      ensures log == RenderAll(Decode(IDLE, Sound(input, chunkSize), chunkSize), chunkSize)
      ensures ends == DataReads(IDLE, [], Sound(input, chunkSize), chunkSize)
    {
      hide FirstFault, Tracks, Decode, RenderAll, Sound;
      TracksStop(input, chunkSize, log, ends, message, sizes, Rest());
    }

    /** At the end of a run. */
    lemma Quiet()
      requires Valid() && (pending.Reads() ==> position + Requested() > |input|)
      ensures chunkSize > 0
      ensures pending.Lost? <==> Sound(input, chunkSize) != input
      ensures log == RenderAll(Decode(IDLE, Sound(input, chunkSize), chunkSize), chunkSize)
      ensures ends == DataReads(IDLE, [], Sound(input, chunkSize), chunkSize)
    {
      hide Decode, RenderAll, LogAgrees, Between, HeaderAwaited, ControlAwaited, ChunkAwaited, FirstFault, AtFault;
      if pending.Lost? {
        Stopped();
      } else if pending.Reads() {
        Waiting();
      }
    }

    /** Reads until the connection ends, the socket has nothing more, or a counter goes wrong. */
    method Run()
      requires Valid()
      modifies Repr()
      ensures chunkSize > 0
      ensures pending.Lost? <==> Sound(input, chunkSize) != input
      ensures log == RenderAll(Decode(IDLE, Sound(input, chunkSize), chunkSize), chunkSize)
      ensures ends == DataReads(IDLE, [], Sound(input, chunkSize), chunkSize)
    {
      hide Decode, RenderAll, Valid, Sound;
      while pending.Reads() && position + Requested() <= |input|
        invariant Valid() && fresh(Repr() - old(Repr()))
        decreases |input| - position, Rank()
      {
        Step();
      }
      Quiet();
    }
  }

  /** What the log shows of a stream of whole frames does not depend on the chunk size. */
  lemma LogShows(input: seq<byte>, chunkSize: nat)
    requires chunkSize > 0
    ensures Frames(input) ==>
              Observed(RenderAll(Decode(IDLE, input, chunkSize), chunkSize), false, []) == Decode(IDLE, input, 1)
  {
    hide Decode, RenderAll, Observed;
    if Frames(input) {
      ChunkSizeUnobservable(IDLE, input, chunkSize, 1);
      ObservedRenderAll(Decode(IDLE, input, chunkSize), chunkSize);
    }
  }

  /** Everything a session does with a byte stream after the handshake, in whatever pieces it is read: exactly what the
      one-shot decoder makes of the stream, rendered in parts of the chunk size, up to the first frame at which a
      64-bit counter goes wrong. */
  method Serve(input: seq<byte>, chunkSize: uint64) returns (log: seq<Event>, lost: bool)
    requires chunkSize > 0
    ensures lost <==> Sound(input, chunkSize) != input
    ensures log == RenderAll(Decode(IDLE, Sound(input, chunkSize), chunkSize), chunkSize)
    ensures Frames(input) && !lost ==> Observed(log, false, []) == Decode(IDLE, input, 1)
  {
    hide Sound, Decode, RenderAll, Observed, Frames, Session.Valid;
    var session := new Session(input, chunkSize);
    session.Start();
    session.Run();
    log, lost := session.log, session.pending.Lost?;
    LogShows(input, chunkSize);
  }
}
