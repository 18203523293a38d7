/** Packing the payloads of a message's frames tightly into chunks. */
module Gathering {
  import opened Arithmetic
  import opened Bytes
  import opened Chunks
  import opened FrameHeaders
  import opened Masking
  import opened Schedule
  import opened Sequences
  import Utf8

  /** Sums and differences of `uint64_t`. */
  function Add64(a: uint64, b: uint64): uint64 { (a + b) % U64 }

  function Sub64(a: uint64, b: uint64): uint64 { (a + U64 - b) % U64 }

  /** What a stretch of payload does to the checker: binary frames are not checked. */
  function Checked(e: Utf8.Expect, isBinary: bool, plain: seq<byte>): Utf8.Expect {
    if isBinary then e else Utf8.Consume(e, plain)
  }

  /** The sum that closes the last chunk does not wrap, or wrapping does no harm. */
  predicate Closable(total: nat, chunkSize: uint64)
    requires chunkSize > 0
  {
    total + chunkSize <= U64 || U64 % chunkSize == 0
  }

  /** The size that the last chunk is given: modulo the chunk size, but never zero. */
  function ClosingSize(total: uint64, chunkSize: uint64): (size: nat)
    requires chunkSize > 0
    ensures 0 < size <= chunkSize
  {
    Sub64(Add64(chunkSize, total), 1) % chunkSize + 1
  }

  lemma ClosingSum(size: uint64, total: uint64)
    requires 0 < size
    ensures Sub64(Add64(size, total), 1) == if size + total <= U64 then size + total - 1 else size + total - 1 - U64
  {}

  /** It is right for every total and every chunk size for which the message is closable, and for no others. */
  lemma LastChunkSize(total: uint64, size: uint64, n: nat)
    requires 0 < size && 0 < n && (n - 1) * size < total <= n * size
    ensures ClosingSize(total, size) == total - (n - 1) * size <==> Closable(total, size)
  {
    var x := size + total - 1;
    assert n * size == (n - 1) * size + size;
    Quotient(x, size, n, total - 1 - (n - 1) * size);
    ClosingSum(size, total);
    if size + total > U64 {
      Shifted(x, U64, size);
    }
  }

  /** How much is asked for next, from a buffer whose size is given as `size`. */
  function Ask(consumed: uint64, total: uint64, size: uint64): uint64 {
    if total > size then Sub64(size, consumed) else Sub64(total, consumed)
  }

  /** The chunk that position `at` falls into ends below 2^64. */
  predicate ChunkFits(at: nat, chunkSize: nat)
    requires chunkSize > 0
  {
    (at / chunkSize + 1) * chunkSize < U64
  }

  /** A length that is at most one chunk ahead, as a 64-bit number. */
  lemma WrappedLength(consumed: uint64, length: nat, size: uint64)
    requires consumed <= length <= consumed + size
    ensures length % U64 == if length < U64 then length else length - U64
    ensures length % U64 == consumed <==> length == consumed
  {
    if length < U64 {
      Quotient(length, U64, 0, length);
    } else {
      Quotient(length, U64, 1, length - U64);
    }
  }

  /** In chunk `n` of `n + 1`, the right amount is asked for exactly when that chunk ends below 2^64.  Otherwise it is
      the whole rest of the chunk, even though the data ends before that. */
  lemma AskIsRead(consumed: uint64, total: uint64, chunkSize: uint64, n: nat)
    requires consumed < total && n * chunkSize <= consumed < (n + 1) * chunkSize
    ensures ChunkFits(consumed, chunkSize) <==> (n + 1) * chunkSize < U64
    ensures var ask := Ask(consumed, total, (n + 1) * chunkSize % U64);
            && (ask == NextRead(consumed, total, chunkSize) <==> ChunkFits(consumed, chunkSize))
            && (!ChunkFits(consumed, chunkSize) ==> ask == (n + 1) * chunkSize - consumed)
  {
    var end := (n + 1) * chunkSize;
    assert end == n * chunkSize + chunkSize;
    ReadOf(consumed, total, chunkSize, n);
    hide NextRead;
    WrappedLength(consumed, end, chunkSize);
  }

  /** The chunks of before, and at most one more. */
  ghost predicate Extends<T>(now: seq<T>, before: seq<T>) {
    now == before || (|now| == |before| + 1 && now[..|before|] == before)
  }

  class Gather {
    const utf8: Utf8.Byte
    var maskOffset: uint8
    var totalSize: uint64
    var totalConsumed: uint64
    var nextConsume: uint64
    // The position in the buffer where the next bytes go.
    var chunk: array?<byte>
    var offset: nat
    // How much of the current frame has been consumed.
    ghost var done: nat
    // The payload sizes of the message's frames so far, and the places where its reads have ended.
    ghost var sizes: seq<nat>
    ghost var ends: seq<nat>

    ghost predicate Valid()
      reads utf8
    {
      utf8.Valid()
    }

    constructor ()
      ensures fresh(utf8) && Valid() && totalSize == 0 && utf8.Expecting() == Utf8.START
    {
      utf8 := new Utf8.Byte();
      maskOffset, totalSize, totalConsumed, nextConsume, chunk, offset, done := 0, 0, 0, 0, null, 0, 0;
      sizes, ends := [], [];
    }

    /** The reads so far, and those that the current frame still takes, are the reads of the message. */
    ghost predicate OnSchedule(chunkSize: nat)
      reads this`sizes, this`ends, this`totalConsumed, this`totalSize
    {
      chunkSize > 0 && Follows(ends, totalConsumed, totalSize, sizes, chunkSize)
    }

    method Reset()
      modifies this, utf8
      ensures Valid() && utf8.Expecting() == Utf8.START
      ensures totalSize == totalConsumed == nextConsume == done == maskOffset == 0
      ensures sizes == ends == [] && forall size :: size > 0 ==> OnSchedule(size)
    {
      utf8.Reset();
      maskOffset, totalSize, totalConsumed, nextConsume, chunk, offset, done := 0, 0, 0, 0, null, 0, 0;
      sizes, ends := [], [];
    }

    /** So when all of the message has been read, its reads have ended exactly at the multiples of the chunk size and
        at the ends of the frames. */
    lemma EndsAreCuts(chunkSize: nat, e: nat)
      requires OnSchedule(chunkSize) && totalConsumed == totalSize
      ensures e in ends <==> 0 < e <= totalSize && (e % chunkSize == 0 || FrameEnd(0, sizes, e))
    {
      ReadsAreCuts(0, sizes, chunkSize, e);
    }

    /** None of these reads was empty or left the chunk it began in, and there were no more of them than non-empty
        frames and full chunks together. */
    lemma EndsWithinChunks(chunkSize: nat)
      requires OnSchedule(chunkSize) && totalConsumed == totalSize
      ensures WithinChunks(0, ends, chunkSize) && LastEnd(0, ends) == totalSize
      ensures |ends| <= NonEmpty(sizes) + totalSize / chunkSize
    {
      hide WithinChunks, MessageReads, NonEmpty, LastEnd;
      Units(ends);
      NoReads(totalSize, chunkSize);
      ReadsWithinChunks(0, sizes, chunkSize);
      ReadsAreFew(0, sizes, chunkSize);
    }

    /** Another frame of `size` payload bytes.  The total wraps around; it falls behind what has been consumed exactly
        when it does. */
    method More(size: uint64, ghost chunkSize: nat)
      modifies this
      ensures totalSize == Add64(old(totalSize), size) && totalConsumed == old(totalConsumed)
      ensures old(totalConsumed == totalSize) ==> (totalConsumed <= totalSize <==> old(totalSize) + size < U64)
      ensures done == 0 && maskOffset == 0
      ensures sizes == old(sizes) + [size] && ends == old(ends)
      ensures old(totalSize) + size < U64 && old(totalConsumed == totalSize && OnSchedule(chunkSize)) ==>
                OnSchedule(chunkSize)
    {
      if chunkSize > 0 {
        FollowsFrame(ends, totalSize, sizes, size, chunkSize);
      }
      hide Follows;
      totalSize := Add64(totalSize, size);
      maskOffset, done, sizes := 0, 0, sizes + [size];
    }

    /** The offset into the key is right, or any offset will do. */
    ghost predicate InStep(key: Key)
      reads this`maskOffset, this`done
    {
      maskOffset % 4 == done % 4 || key == ZERO_KEY
    }

    /** At the end of a frame: as many chunks as the consumed bytes need, and no more. */
    ghost predicate Packed(buffer: ChunkVector<byte>)
      reads this`totalConsumed, buffer
    {
      && buffer.Valid() && buffer.open
      && totalConsumed <= |buffer.chunks| * buffer.chunkSize
      && (buffer.chunks != [] ==> (|buffer.chunks| - 1) * buffer.chunkSize < totalConsumed)
    }

    /** A completed message: closed, of the right size, and without an empty chunk. */
    ghost predicate Delivered(buffer: ChunkVector<byte>)
      reads this`totalSize, buffer
    {
      && buffer.Valid() && !buffer.open && buffer.Length() == totalSize
      && (buffer.chunks != [] ==> (|buffer.chunks| - 1) * buffer.chunkSize < totalSize)
    }

    /** Within a frame: the next bytes go to the last chunk, which has room for them. */
    ghost predicate Placed(buffer: ChunkVector<byte>)
      reads this`totalConsumed, this`chunk, this`offset, buffer
    {
      && buffer.Valid() && buffer.open && buffer.chunks != []
      && var n := |buffer.chunks| - 1;
      && n * buffer.chunkSize <= totalConsumed < (n + 1) * buffer.chunkSize
      && chunk == buffer.chunks[n] && offset == totalConsumed - n * buffer.chunkSize
    }

    /** The next read ends with the chunk or with the frame. */
    ghost predicate Scheduled(buffer: ChunkVector<byte>)
      reads this, buffer
    {
      && Placed(buffer)
      && totalConsumed < totalSize
      && nextConsume == NextRead(totalConsumed, totalSize, buffer.chunkSize)
    }

    /** A scheduled read has something to read and stays within the last chunk. */
    lemma ReadFits(buffer: ChunkVector<byte>)
      requires Scheduled(buffer)
      ensures 0 < nextConsume <= totalSize - totalConsumed
      ensures offset + nextConsume <= buffer.chunkSize
      ensures nextConsume == if totalSize > |buffer.chunks| * buffer.chunkSize
                             then |buffer.chunks| * buffer.chunkSize - totalConsumed
                             else totalSize - totalConsumed
    {
      var n := |buffer.chunks| - 1;
      assert (n + 1) * buffer.chunkSize == n * buffer.chunkSize + buffer.chunkSize;
      Quotient(totalConsumed, buffer.chunkSize, n, offset);
    }

    /** Unmasks and checks the bytes that the last read has put in place. */
    method MaskChunk(key: Key, isBinary: bool, amount: nat) returns (ok: bool)
      requires utf8.Valid() && utf8.Ok() && InStep(key)
      requires chunk != null && offset + amount <= chunk.Length
      modifies this`maskOffset, this`done, utf8, chunk
      ensures utf8.Valid() && ok == utf8.Ok()
      ensures utf8.Expecting() ==
              Checked(old(utf8.Expecting()), isBinary, Unmask(old(chunk[offset..offset + amount]), key, old(done)))
      ensures ok ==> chunk[offset..offset + amount] == Unmask(old(chunk[offset..offset + amount]), key, old(done))
      ensures ok ==> chunk[..offset] == old(chunk[..offset])
      ensures ok ==> done == old(done) + amount && InStep(key)
    {
      hide Unmask, Utf8.Consume, Utf8.Byte.Valid, Utf8.Byte.Expecting, Utf8.Byte.Ok;
      ghost var k := maskOffset;
      SameUnmask(chunk[offset..offset + amount], key, k, done);
      maskOffset := ApplyMask(chunk, offset, amount, key, maskOffset, !isBinary, utf8);
      ok := utf8.Ok();
      if ok {
        done := done + amount;
        InStepAgain(key, k, done - amount, amount, maskOffset);
      }
    }

    /** What the last read has put into the buffer. */
    ghost function Raw(amount: nat): (s: seq<byte>)
      reads this`chunk, this`offset, chunk
    {
      if chunk != null && offset + amount <= chunk.Length then chunk[offset..offset + amount] else []
    }

    /** What stands in front of the chunk that is read into. */
    lemma WhereNext(buffer: ChunkVector<byte>) returns (front: seq<array<byte>>)
      requires Scheduled(buffer)
      ensures buffer.chunks != [] && chunk == buffer.chunks[|buffer.chunks| - 1] && chunk !in front
      ensures buffer.chunks[..|buffer.chunks| - 1] == front
      ensures totalConsumed == (|buffer.chunks| - 1) * buffer.chunkSize + offset
      ensures 0 < nextConsume <= totalSize - totalConsumed && offset + nextConsume <= chunk.Length
      ensures totalConsumed + nextConsume <= |buffer.chunks| * buffer.chunkSize
      ensures totalConsumed + nextConsume < totalSize ==> (totalConsumed + nextConsume) % buffer.chunkSize == 0
    {
      ReadFits(buffer);
      front := buffer.chunks[..|buffer.chunks| - 1];
      Quotient(|buffer.chunks| * buffer.chunkSize, buffer.chunkSize, |buffer.chunks|, 0);
    }

    /** The same, seen in the buffer as a whole. */
    method Absorb(key: Key, isBinary: bool, buffer: ChunkVector<byte>, amount: nat) returns (ok: bool)
      requires Valid() && utf8.Ok() && InStep(key)
      requires Scheduled(buffer) && amount == nextConsume
      modifies this`maskOffset, this`totalConsumed, this`done, utf8, chunk
      ensures Valid() && ok == utf8.Ok()
      ensures utf8.Expecting() == Checked(old(utf8.Expecting()), isBinary, Unmask(old(Raw(amount)), key, old(done)))
      ensures ok ==> buffer.Prefix(totalConsumed) ==
                     old(buffer.Prefix(totalConsumed)) + Unmask(old(Raw(amount)), key, old(done))
      ensures ok ==> totalConsumed == old(totalConsumed) + amount <= totalSize
      ensures ok ==> done == old(done) + amount && InStep(key)
      ensures ok ==> (|buffer.chunks| - 1) * buffer.chunkSize < totalConsumed <= |buffer.chunks| * buffer.chunkSize
      ensures ok && totalConsumed < totalSize ==> totalConsumed % buffer.chunkSize == 0
    {
      hide Unmask, Utf8.Consume, Utf8.Byte.Valid, Utf8.Byte.Expecting, Utf8.Byte.Ok;
      hide Concat, NextRead, Scheduled, ChunkVector.Valid, ChunkVector.Prefix, InStep, Checked;
      ghost var front := WhereNext(buffer);
      ghost var before, plain := chunk[..offset], Unmask(Raw(amount), key, done);
      buffer.PrefixAt(totalConsumed, offset);
      ok := MaskChunk(key, isBinary, amount);
      if ok {
        totalConsumed := totalConsumed + amount;
        buffer.PrefixAt(totalConsumed, offset + amount);
        TakeMore(chunk[..], offset, amount);
        assert chunk[..offset + amount] == before + plain;
        Associative(Concat(front), before, plain);
      }
    }

    lemma ReadOn(buffer: ChunkVector<byte>, amount: nat)
      requires Scheduled(buffer) && amount == nextConsume && OnSchedule(buffer.chunkSize)
      ensures Follows(ends + [totalConsumed + amount], totalConsumed + amount, totalSize, sizes, buffer.chunkSize)
    {
      hide Follows, NextRead;
      FollowsRead(ends, totalConsumed, totalSize, sizes, buffer.chunkSize);
    }

    lemma FullPrefix(buffer: ChunkVector<byte>)
      requires buffer.Valid() && buffer.open && totalConsumed == buffer.Length()
      ensures totalConsumed == |buffer.chunks| * buffer.chunkSize
      ensures buffer.Prefix(totalConsumed) == buffer.Flat()
    {
      buffer.LengthIsFlat();
      if buffer.chunks != [] {
        buffer.PrefixIsPrefix(totalConsumed);
      }
    }

    /** Whether the chunks that are there are full can be seen from their size, although it wraps around. */
    lemma FullShown(buffer: ChunkVector<byte>)
      requires buffer.Valid() && buffer.open
      requires totalConsumed <= |buffer.chunks| * buffer.chunkSize
      requires buffer.chunks != [] ==> (|buffer.chunks| - 1) * buffer.chunkSize <= totalConsumed
      ensures buffer.Length() == |buffer.chunks| * buffer.chunkSize
      ensures totalConsumed == buffer.Size() <==> totalConsumed == buffer.Length()
    {
      hide ChunkVector.Size, ChunkVector.Length;
      var n := |buffer.chunks|;
      buffer.SizeIsLength();
      buffer.LengthIsFlat();
      assert n > 0 ==> n * buffer.chunkSize == (n - 1) * buffer.chunkSize + buffer.chunkSize;
      WrappedLength(totalConsumed, buffer.Length(), buffer.chunkSize);
    }

    /** A new chunk, if the chunks that are there are all full. */
    method MakeRoom(buffer: ChunkVector<byte>)
      requires buffer.Valid() && buffer.open
      requires totalConsumed <= |buffer.chunks| * buffer.chunkSize
      requires buffer.chunks != [] ==> (|buffer.chunks| - 1) * buffer.chunkSize <= totalConsumed
      modifies buffer
      ensures buffer.Valid() && buffer.open && buffer.chunks != []
      ensures (|buffer.chunks| - 1) * buffer.chunkSize <= totalConsumed < |buffer.chunks| * buffer.chunkSize
      ensures Extends(buffer.chunks, old(buffer.chunks))
      ensures forall c :: c in buffer.chunks ==> c in old(buffer.chunks) || fresh(c)
      ensures buffer.Prefix(totalConsumed) == old(buffer.Prefix(totalConsumed))
    {
      hide Concat, ChunkVector.Prefix, ChunkVector.Flat, ChunkVector.Size, ChunkVector.Length;
      FullShown(buffer);
      if totalConsumed == buffer.Size() {
        FullPrefix(buffer);
        ghost var n := |buffer.chunks|;
        assert (n + 1) * buffer.chunkSize == n * buffer.chunkSize + buffer.chunkSize;
        var ok := buffer.NewChunk();
        assert buffer.chunks == buffer.chunks[..n] + [buffer.chunks[n]];
      }
    }

    lemma AskShown(buffer: ChunkVector<byte>)
      requires Placed(buffer)
      ensures var ask := Ask(totalConsumed, totalSize, buffer.Size());
              totalConsumed < totalSize ==>
                (ask == NextRead(totalConsumed, totalSize, buffer.chunkSize) <==>
                 ChunkFits(totalConsumed, buffer.chunkSize))
    {
      hide NextRead, ChunkFits, ChunkVector.Size, ChunkVector.Length;
      buffer.LengthIsFlat();
      buffer.SizeIsLength();
      if totalConsumed < totalSize {
        AskIsRead(totalConsumed, totalSize, buffer.chunkSize, |buffer.chunks| - 1);
      }
    }

    /** Where the consumed bytes end. */
    lemma InLast(buffer: ChunkVector<byte>)
      requires buffer.Valid() && buffer.chunks != []
      requires (|buffer.chunks| - 1) * buffer.chunkSize <= totalConsumed < |buffer.chunks| * buffer.chunkSize
      ensures totalConsumed / buffer.chunkSize == |buffer.chunks| - 1
      ensures totalConsumed % buffer.chunkSize == totalConsumed - (|buffer.chunks| - 1) * buffer.chunkSize
    {
      var n := |buffer.chunks| - 1;
      assert (n + 1) * buffer.chunkSize == n * buffer.chunkSize + buffer.chunkSize;
      Quotient(totalConsumed, buffer.chunkSize, n, totalConsumed - n * buffer.chunkSize);
    }

    /** More to read: where the next read goes, and how long it is.  It is as long as it should be exactly when the
        total has not fallen behind and the chunk ends below 2^64. */
    method ScheduleNext(buffer: ChunkVector<byte>)
      requires buffer.Valid() && buffer.open
      requires totalConsumed <= |buffer.chunks| * buffer.chunkSize
      requires buffer.chunks != [] ==> (|buffer.chunks| - 1) * buffer.chunkSize <= totalConsumed
      modifies this`nextConsume, this`chunk, this`offset, buffer
      ensures Placed(buffer) && nextConsume == Ask(totalConsumed, totalSize, buffer.Size())
      ensures Scheduled(buffer) <==> totalConsumed < totalSize && ChunkFits(totalConsumed, buffer.chunkSize)
      ensures Extends(buffer.chunks, old(buffer.chunks))
      ensures forall c :: c in buffer.chunks ==> c in old(buffer.chunks) || fresh(c)
      ensures buffer.Prefix(totalConsumed) == old(buffer.Prefix(totalConsumed))
    {
      hide Concat, ChunkVector.Prefix, ChunkVector.Flat, ChunkVector.Valid, ChunkVector.Size, ChunkVector.Length,
        NextRead, ChunkFits, Sub64;
      MakeRoom(buffer);
      buffer.LengthIsFlat();
      InLast(buffer);
      chunk, offset := buffer.At(totalConsumed);
      AskShown(buffer);
      if totalSize > buffer.Size() {
        nextConsume := Sub64(buffer.Size(), totalConsumed);
      } else {
        nextConsume := Sub64(totalSize, totalConsumed);
      }
    }

    lemma NothingToClose(chunkSize: uint64)
      requires chunkSize > 0
      ensures Closable(0, chunkSize)
    {}

    lemma ClosingSizeIs(total: uint64, chunkSize: uint64)
      requires chunkSize > 0
      ensures ClosingSize(total, chunkSize) == Sub64(Add64(chunkSize, total), 1) % chunkSize + 1
    {}

    /** The message is complete: the last chunk is cut to the bytes that are in it. */
    method Close(buffer: ChunkVector<byte>)
      requires Packed(buffer) && totalConsumed == totalSize
      modifies buffer
      ensures buffer.Valid() && !buffer.open
      ensures buffer.Length() == totalSize <==> Closable(totalSize, buffer.chunkSize)
      ensures |buffer.chunks| == |old(buffer.chunks)|
      ensures forall c :: c in buffer.chunks ==> c in old(buffer.chunks) || fresh(c)
      ensures Closable(totalSize, buffer.chunkSize) ==> buffer.Flat() == old(buffer.Prefix(totalConsumed))
    {
      ghost var before, n := buffer.chunks, |buffer.chunks| - 1;
      hide Concat, ChunkVector.Prefix, ChunkVector.Flat, Closable, ClosingSize, Resized;
      if n >= 0 {
        LastChunkSize(totalSize, buffer.chunkSize, |buffer.chunks|);
      } else {
        NothingToClose(buffer.chunkSize);
      }
      ClosingSizeIs(totalSize, buffer.chunkSize);
      buffer.CloseLastChunk(Sub64(Add64(buffer.chunkSize, totalSize), 1) % buffer.chunkSize + 1);
      if n >= 0 {
        assert buffer.chunks == before[..n] + [buffer.chunks[n]];
      }
    }

    /** Keeps a record of the read. */
    method TakeIn(key: Key, isBinary: bool, buffer: ChunkVector<byte>, amount: nat) returns (ok: bool)
      requires Valid() && utf8.Ok() && InStep(key)
      requires Scheduled(buffer) && amount == nextConsume
      modifies this`maskOffset, this`totalConsumed, this`done, this`ends, utf8, chunk
      ensures Valid() && ok == utf8.Ok()
      ensures utf8.Expecting() == Checked(old(utf8.Expecting()), isBinary, Unmask(old(Raw(amount)), key, old(done)))
      ensures ok <==> utf8.Expecting() != Utf8.Failed
      ensures ok ==> buffer.Prefix(totalConsumed) ==
                     old(buffer.Prefix(totalConsumed)) + Unmask(old(Raw(amount)), key, old(done))
      ensures ok ==> totalConsumed == old(totalConsumed) + amount <= totalSize
      ensures ok ==> done == old(done) + amount && InStep(key)
      ensures ok ==> Packed(buffer)
      ensures ok && totalConsumed < totalSize ==> buffer.chunkSize > 0 && totalConsumed % buffer.chunkSize == 0
      ensures ok ==> ends == old(ends) + [totalConsumed]
      ensures ok && old(OnSchedule(buffer.chunkSize)) ==> OnSchedule(buffer.chunkSize)
    {
      hide Follows, NextRead, Utf8.Byte.Expecting, ChunkVector.Prefix, Unmask, Checked, InStep, Utf8.Consume, Raw;
      if OnSchedule(buffer.chunkSize) {
        ReadOn(buffer, amount);
      }
      ok := Absorb(key, isBinary, buffer, amount);
      if ok {
        ends := ends + [totalConsumed];
      }
    }

    /** What happens next: the message is complete, the frame is, or there is more to read. */
    method Conclude(buffer: ChunkVector<byte>, newRequest: bool) returns (code: nat)
      requires Valid() && Packed(buffer)
      modifies this`nextConsume, this`chunk, this`offset, buffer
      ensures Valid()
      ensures code == if newRequest && totalConsumed == totalSize && utf8.Expecting() != Utf8.START
                      then INCONSISTENT_DATA else 0
      ensures code == 0 && totalConsumed != totalSize ==>
                && Placed(buffer) && nextConsume == Ask(totalConsumed, totalSize, buffer.Size())
                && (Scheduled(buffer) <==> totalConsumed < totalSize && ChunkFits(totalConsumed, buffer.chunkSize))
      ensures code == 0 && totalConsumed == totalSize ==> nextConsume == 0 && (!newRequest ==> Packed(buffer))
      ensures code == 0 && totalConsumed == totalSize && newRequest ==>
                && buffer.Valid() && !buffer.open
                && (buffer.Length() == totalSize <==> Closable(totalSize, buffer.chunkSize))
                && (Closable(totalSize, buffer.chunkSize) ==> Delivered(buffer))
      ensures code == 0 ==>
                if newRequest && totalConsumed == totalSize then
                  Closable(totalSize, buffer.chunkSize) ==> buffer.Flat() == old(buffer.Prefix(totalConsumed))
                else buffer.Prefix(totalConsumed) == old(buffer.Prefix(totalConsumed))
      ensures forall c :: c in buffer.chunks ==> c in old(buffer.chunks) || fresh(c)
    {
      hide Concat, ChunkVector.Prefix, ChunkVector.Flat, NextRead, Utf8.Byte.Expecting, Utf8.Byte.Complete;
      if totalSize == totalConsumed {
        if newRequest {
          if !utf8.Complete() {
            return 1007;
          }
          Close(buffer);
        }
        nextConsume := 0;
      } else {
        ScheduleNext(buffer);
      }
      return 0;
    }

    lemma KeyThere(header: Header)
      requires header.Decoded()
      ensures header.buffer.Length == 14 && header.mask <= 10 && INCONSISTENT_DATA == 1007
    {}

    /** No read, nothing unmasked. */
    lemma NothingRead(key: Key, isBinary: bool)
      requires Valid() && utf8.Ok()
      ensures Unmask(Raw(0), key, done) == []
      ensures Checked(utf8.Expecting(), isBinary, []) == utf8.Expecting() != Utf8.Failed
    {
      hide Utf8.Byte.Expecting;
    }

    /** Takes in what the last read has brought, and decides what happens next.

        The result is the code of section 7.4.1 for inconsistent data exactly when the text so far cannot be continued,
        or ends the message in the middle of a character. */
    method ReadChunk(header: Header, buffer: ChunkVector<byte>, amount: nat, newRequest: bool) returns (code: nat)
      requires header.Decoded() && header.buffer !in buffer.chunks
      requires Valid() && utf8.Ok() && InStep(header.Key())
      requires if amount == 0 then Packed(buffer) else Scheduled(buffer) && amount == nextConsume
      modifies this, utf8, buffer, buffer.chunks
      ensures header.Decoded() && header.Key() == old(header.Key()) && totalSize == old(totalSize)
      ensures var plain := Unmask(old(Raw(amount)), header.Key(), old(done));
              var e := Checked(old(utf8.Expecting()), header.isBinary, plain);
              code == if e == Utf8.Failed || (newRequest && old(totalConsumed) + amount == totalSize && e != Utf8.START)
                      then INCONSISTENT_DATA else 0
      ensures code == 0 ==>
                && Valid() && utf8.Ok() && InStep(header.Key())
                && totalConsumed == old(totalConsumed) + amount && done == old(done) + amount
                && (amount > 0 ==> totalConsumed <= totalSize)
                && utf8.Expecting() ==
                   Checked(old(utf8.Expecting()), header.isBinary, Unmask(old(Raw(amount)), header.Key(), old(done)))
      ensures code == 0 && totalConsumed != totalSize ==>
                && Placed(buffer) && nextConsume == Ask(totalConsumed, totalSize, buffer.Size())
                && (Scheduled(buffer) <==> totalConsumed < totalSize && ChunkFits(totalConsumed, buffer.chunkSize))
      ensures code == 0 && totalConsumed == totalSize ==> nextConsume == 0 && (!newRequest ==> Packed(buffer))
      ensures code == 0 && totalConsumed == totalSize && newRequest ==>
                && buffer.Valid() && !buffer.open
                && (buffer.Length() == totalSize <==> Closable(totalSize, buffer.chunkSize))
                && (Closable(totalSize, buffer.chunkSize) ==> Delivered(buffer))
      ensures code == 0 ==>
                var now := old(buffer.Prefix(totalConsumed)) + Unmask(old(Raw(amount)), header.Key(), old(done));
                if newRequest && totalConsumed == totalSize then
                  Closable(totalSize, buffer.chunkSize) ==> buffer.Flat() == now
                else buffer.Prefix(totalConsumed) == now
      ensures code == 0 && amount != 0 && totalConsumed < totalSize ==> totalConsumed % buffer.chunkSize == 0
      ensures sizes == old(sizes)
      ensures code == 0 ==> ends == old(ends) + if amount == 0 then [] else [totalConsumed]
      ensures code == 0 && old(OnSchedule(buffer.chunkSize)) ==> OnSchedule(buffer.chunkSize)
      ensures forall c :: c in buffer.chunks ==> c in old(buffer.chunks) || fresh(c)
    {
      hide *;
      KeyThere(header);
      if amount != 0 {
        ghost var front := WhereNext(buffer);
        var ok := TakeIn(header.Key(), header.isBinary, buffer, amount);
        if !ok {
          return 1007;
        }
      } else {
        NothingRead(header.Key(), header.isBinary);
        assert buffer.Prefix(totalConsumed) + [] == buffer.Prefix(totalConsumed);
      }
      code := Conclude(buffer, newRequest);
    }
  }
}
