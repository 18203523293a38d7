/** All the reads that a message's payload is scheduled in, by the places where they end.

    The gatherer asks for one read after the other, each as long as `NextRead` says; these are the lemmas about what
    that amounts to over a whole message. */
module Schedule {
  import opened Arithmetic

  lemma ChunkEnd(consumed: nat, chunkSize: nat)
    requires chunkSize > 0
    ensures consumed / chunkSize * chunkSize <= consumed < (consumed / chunkSize + 1) * chunkSize
  {
    var q := consumed / chunkSize;
    assert consumed == q * chunkSize + consumed % chunkSize;
    assert (q + 1) * chunkSize == q * chunkSize + chunkSize;
  }

  /** How much to read next: up to the end of the current chunk, or of the data if that comes first. */
  function NextRead(consumed: nat, total: nat, chunkSize: nat): (n: nat)
    requires consumed < total && chunkSize > 0
  {
    ChunkEnd(consumed, chunkSize);
    if total > (consumed / chunkSize + 1) * chunkSize then (consumed / chunkSize + 1) * chunkSize - consumed
    else total - consumed
  }

  /** The read of a position in chunk `n`. */
  lemma ReadOf(consumed: nat, total: nat, chunkSize: nat, n: nat)
    requires consumed < total && n * chunkSize <= consumed < (n + 1) * chunkSize
    ensures consumed / chunkSize == n && consumed % chunkSize == consumed - n * chunkSize
    ensures NextRead(consumed, total, chunkSize) ==
            if total > (n + 1) * chunkSize then (n + 1) * chunkSize - consumed else total - consumed
  {
    assert (n + 1) * chunkSize == n * chunkSize + chunkSize;
    Quotient(consumed, chunkSize, n, consumed - n * chunkSize);
  }

  lemma Bounds(q: nat, chunkSize: nat)
    ensures (q + 1) * chunkSize == q * chunkSize + chunkSize
  {}

  lemma InOneChunk(consumed: nat, next: nat, q: nat, begin: nat, chunkSize: nat)
    requires begin == q * chunkSize && begin <= consumed < next <= begin + chunkSize
    ensures next % chunkSize == 0 <==> next == begin + chunkSize
    ensures next / chunkSize == if next == begin + chunkSize then q + 1 else q
    ensures (next - 1) / chunkSize == q
    ensures forall e :: consumed < e < next ==> e % chunkSize != 0
  {
    Bounds(q, chunkSize);
    Quotient(next - 1, chunkSize, q, next - 1 - begin);
    if next == begin + chunkSize {
      Quotient(next, chunkSize, q + 1, 0);
    } else {
      Quotient(next, chunkSize, q, next - begin);
    }
    forall e | consumed < e < next
      ensures e % chunkSize != 0
    {
      Quotient(e, chunkSize, q, e - begin);
    }
  }

  /** The next read ends with the frame or at the next multiple of the chunk size, whichever comes first. */
  lemma NextIsCut(consumed: nat, total: nat, chunkSize: nat)
    requires chunkSize > 0 && consumed < total
    ensures var next := consumed + NextRead(consumed, total, chunkSize);
            && consumed < next <= total
            && (next % chunkSize == 0 || next == total)
            && consumed / chunkSize == (next - 1) / chunkSize
            && next / chunkSize == consumed / chunkSize + (if next % chunkSize == 0 then 1 else 0)
            && forall e :: consumed < e < next ==> e % chunkSize != 0
  {
    var q, next := consumed / chunkSize, consumed + NextRead(consumed, total, chunkSize);
    ChunkEnd(consumed, chunkSize);
    Bounds(q, chunkSize);
    hide NextRead;
    InOneChunk(consumed, next, q, q * chunkSize, chunkSize);
  }

  /** The reads of one frame, whose payload ends at `total`. */
  function FrameReads(consumed: nat, total: nat, chunkSize: nat): seq<nat>
    requires chunkSize > 0
    decreases total - consumed
  {
    if consumed >= total then []
    else
      NextIsCut(consumed, total, chunkSize);
      var next := consumed + NextRead(consumed, total, chunkSize);
      [next] + FrameReads(next, total, chunkSize)
  }

  /** The reads of frames with the given payload sizes; the payload of the first one begins at `start`. */
  function MessageReads(start: nat, sizes: seq<nat>, chunkSize: nat): seq<nat>
    requires chunkSize > 0
    decreases |sizes|
  {
    if sizes == [] then []
    else FrameReads(start, start + sizes[0], chunkSize) + MessageReads(start + sizes[0], sizes[1..], chunkSize)
  }

  function Sum(sizes: seq<nat>): nat
    decreases |sizes|
  {
    if sizes == [] then 0 else sizes[0] + Sum(sizes[1..])
  }

  function NonEmpty(sizes: seq<nat>): nat {
    if sizes == [] then 0 else (if sizes[0] > 0 then 1 else 0) + NonEmpty(sizes[1..])
  }

  /** One of the frames ends at `e`. */
  ghost predicate FrameEnd(start: nat, sizes: seq<nat>, e: nat)
    decreases |sizes|
  {
    sizes != [] && (e == start + sizes[0] || FrameEnd(start + sizes[0], sizes[1..], e))
  }

  /** Each read has something to read, and does not leave the chunk it begins in. */
  ghost predicate WithinChunks(start: nat, ends: seq<nat>, chunkSize: nat)
    requires chunkSize > 0
    decreases |ends|
  {
    ends == [] || (start < ends[0] && start / chunkSize == (ends[0] - 1) / chunkSize
                   && WithinChunks(ends[0], ends[1..], chunkSize))
  }

  // ---------------------------------------------------------------------------

  /** Within one frame. */
  lemma {:induction false} FrameReadsAreCuts(consumed: nat, total: nat, chunkSize: nat)
    requires chunkSize > 0 && consumed <= total
    ensures forall e: nat :: e in FrameReads(consumed, total, chunkSize) <==>
                             consumed < e <= total && (e % chunkSize == 0 || e == total)
    decreases total - consumed
  {
    if consumed == total {
    } else {
      NextIsCut(consumed, total, chunkSize);
      var next := consumed + NextRead(consumed, total, chunkSize);
      hide NextRead;
      FrameReadsAreCuts(next, total, chunkSize);
    }
  }

  lemma {:induction false} EndsLater(start: nat, sizes: seq<nat>, e: nat)
    requires FrameEnd(start, sizes, e)
    ensures start <= e <= start + Sum(sizes)
    decreases |sizes|
  {
    if e == start + sizes[0] {
    } else {
      EndsLater(start + sizes[0], sizes[1..], e);
    }
  }

  /** The reads of a message end exactly at the cut points: the multiples of the chunk size and the ends of the
      frames. */
  lemma {:induction false} ReadsAreCuts(start: nat, sizes: seq<nat>, chunkSize: nat, e: nat)
    requires chunkSize > 0
    ensures e in MessageReads(start, sizes, chunkSize) <==>
            start < e <= start + Sum(sizes) && (e % chunkSize == 0 || FrameEnd(start, sizes, e))
    decreases |sizes|
  {
    if sizes == [] {
    } else {
      var mid := start + sizes[0];
      FrameReadsAreCuts(start, mid, chunkSize);
      ReadsAreCuts(mid, sizes[1..], chunkSize, e);
      if FrameEnd(mid, sizes[1..], e) {
        EndsLater(mid, sizes[1..], e);
      }
    }
  }

  // ---------------------------------------------------------------------------

  function LastEnd(start: nat, ends: seq<nat>): nat {
    if ends == [] then start else ends[|ends| - 1]
  }

  lemma {:induction false} WithinChunksConcat(start: nat, a: seq<nat>, b: seq<nat>, chunkSize: nat)
    requires chunkSize > 0 && WithinChunks(start, a, chunkSize) && WithinChunks(LastEnd(start, a), b, chunkSize)
    ensures WithinChunks(start, a + b, chunkSize)
    decreases |a|
  {
    if a == [] {
      assert a + b == b;
    } else {
      WithinChunksConcat(a[0], a[1..], b, chunkSize);
      assert (a + b)[1..] == a[1..] + b;
    }
  }

  lemma WithinChunksFirst(start: nat, next: nat, later: seq<nat>, chunkSize: nat)
    requires chunkSize > 0 && start < next && start / chunkSize == (next - 1) / chunkSize
    requires WithinChunks(next, later, chunkSize)
    ensures WithinChunks(start, [next] + later, chunkSize) && LastEnd(start, [next] + later) == LastEnd(next, later)
  {
    assert ([next] + later)[1..] == later;
  }

  lemma {:induction false} FrameReadsWithinChunks(consumed: nat, total: nat, chunkSize: nat)
    requires chunkSize > 0 && consumed <= total
    ensures WithinChunks(consumed, FrameReads(consumed, total, chunkSize), chunkSize)
    ensures LastEnd(consumed, FrameReads(consumed, total, chunkSize)) == total
    decreases total - consumed
  {
    if consumed < total {
      NextIsCut(consumed, total, chunkSize);
      var next := consumed + NextRead(consumed, total, chunkSize);
      hide NextRead, WithinChunks, LastEnd;
      FrameReadsWithinChunks(next, total, chunkSize);
      WithinChunksFirst(consumed, next, FrameReads(next, total, chunkSize), chunkSize);
    } else {
      assert FrameReads(consumed, total, chunkSize) == [];
      assert WithinChunks(consumed, [], chunkSize) && LastEnd(consumed, []) == consumed;
    }
  }

  /** No read is empty or crosses a chunk boundary, and the reads end where the message ends. */
  lemma {:induction false} ReadsWithinChunks(start: nat, sizes: seq<nat>, chunkSize: nat)
    requires chunkSize > 0
    ensures WithinChunks(start, MessageReads(start, sizes, chunkSize), chunkSize)
    ensures LastEnd(start, MessageReads(start, sizes, chunkSize)) == start + Sum(sizes)
    decreases |sizes|
  {
    if sizes == [] {
    } else {
      var mid := start + sizes[0];
      FrameReadsWithinChunks(start, mid, chunkSize);
      ReadsWithinChunks(mid, sizes[1..], chunkSize);
      WithinChunksConcat(start, FrameReads(start, mid, chunkSize), MessageReads(mid, sizes[1..], chunkSize), chunkSize);
    }
  }

  lemma {:induction false} FrameReadsCount(consumed: nat, total: nat, chunkSize: nat)
    requires chunkSize > 0 && consumed <= total
    ensures |FrameReads(consumed, total, chunkSize)| ==
            total / chunkSize - consumed / chunkSize + if consumed < total && total % chunkSize != 0 then 1 else 0
    decreases total - consumed
  {
    if consumed == total {
    } else {
      NextIsCut(consumed, total, chunkSize);
      var next := consumed + NextRead(consumed, total, chunkSize);
      hide NextRead;
      FrameReadsCount(next, total, chunkSize);
    }
  }

  /** There are no more reads than non-empty frames and full chunks together. */
  lemma {:induction false} ReadsAreFew(start: nat, sizes: seq<nat>, chunkSize: nat)
    requires chunkSize > 0
    ensures |MessageReads(start, sizes, chunkSize)| <=
            NonEmpty(sizes) + (start + Sum(sizes)) / chunkSize - start / chunkSize
    decreases |sizes|
  {
    if sizes == [] {
    } else {
      var mid := start + sizes[0];
      FrameReadsCount(start, mid, chunkSize);
      ReadsAreFew(mid, sizes[1..], chunkSize);
      assert mid + Sum(sizes[1..]) == start + Sum(sizes);
    }
  }

  lemma NoReads(total: nat, chunkSize: nat)
    requires chunkSize > 0
    ensures FrameReads(total, total, chunkSize) == []
  {}

  lemma ReadFrom(consumed: nat, total: nat, chunkSize: nat, n: nat)
    requires consumed < total && n * chunkSize <= consumed < (n + 1) * chunkSize
    ensures var end := (n + 1) * chunkSize;
            FrameReads(consumed, total, chunkSize) ==
            if total > end then [end] + FrameReads(end, total, chunkSize) else [total]
  {
    ReadOf(consumed, total, chunkSize, n);
    NextIsCut(consumed, total, chunkSize);
    hide NextRead;
    if total <= (n + 1) * chunkSize {
      NoReads(total, chunkSize);
    }
  }

  lemma FirstFrame(start: nat, size: nat, sizes: seq<nat>, chunkSize: nat)
    requires chunkSize > 0
    ensures MessageReads(start, [size] + sizes, chunkSize) ==
            FrameReads(start, start + size, chunkSize) + MessageReads(start + size, sizes, chunkSize)
  {
    hide FrameReads;
    assert ([size] + sizes)[1..] == sizes;
  }

  lemma NoFrames(start: nat, chunkSize: nat)
    requires chunkSize > 0
    ensures MessageReads(start, [], chunkSize) == []
  {}

  /** Three frames of 1600, 250 and 1000 bytes in chunks of 1000: two full chunks and one of 850 bytes, in five
      reads. */
  lemma ThreeFrames()
    ensures MessageReads(0, [1600, 250, 1000], 1000) == [1000, 1600, 1850, 2000, 2850]
  {
    hide *;
    ReadFrom(0, 1600, 1000, 0);
    ReadFrom(1000, 1600, 1000, 1);
    ReadFrom(1600, 1850, 1000, 1);
    ReadFrom(1850, 2850, 1000, 1);
    ReadFrom(2000, 2850, 1000, 2);
    FirstFrame(0, 1600, [250, 1000], 1000);
    FirstFrame(1600, 250, [1000], 1000);
    FirstFrame(1850, 1000, [], 1000);
    NoFrames(2850, 1000);
    assert [1600] + [250, 1000] == [1600, 250, 1000] && [250] + [1000] == [250, 1000] && [1000] + [] == [1000];
  }

  /** So the bytes that are left get fewer with every read. */
  lemma {:induction false} ReadsAdvance(start: nat, ends: seq<nat>, chunkSize: nat, i: nat, j: nat)
    requires chunkSize > 0 && WithinChunks(start, ends, chunkSize) && i < j < |ends|
    ensures start < ends[i] < ends[j]
    decreases |ends|
  {
    if i > 0 {
      ReadsAdvance(ends[0], ends[1..], chunkSize, i - 1, j - 1);
    } else if j > 1 {
      ReadsAdvance(ends[0], ends[1..], chunkSize, 0, j - 1);
    }
  }

  // ---------------------------------------------------------------------------

  /** Reads that have ended at `ends`, with the message consumed up to `consumed` and its last frame ending at `total`,
      go on to be the reads of the message. */
  ghost predicate Follows(ends: seq<nat>, consumed: nat, total: nat, sizes: seq<nat>, chunkSize: nat)
    requires chunkSize > 0
  {
    && total == Sum(sizes)
    && ends + FrameReads(consumed, total, chunkSize) == MessageReads(0, sizes, chunkSize)
  }

  lemma FollowsRead(ends: seq<nat>, consumed: nat, total: nat, sizes: seq<nat>, chunkSize: nat)
    requires chunkSize > 0 && consumed < total
    ensures var next := consumed + NextRead(consumed, total, chunkSize);
            Follows(ends, consumed, total, sizes, chunkSize) ==> Follows(ends + [next], next, total, sizes, chunkSize)
  {
    var next := consumed + NextRead(consumed, total, chunkSize);
    NextIsCut(consumed, total, chunkSize);
    hide NextRead, MessageReads, Sum;
    var later := FrameReads(next, total, chunkSize);
    assert ends + ([next] + later) == (ends + [next]) + later;
  }

  lemma {:induction false} SumLast(sizes: seq<nat>, size: nat)
    ensures Sum(sizes + [size]) == Sum(sizes) + size
    decreases |sizes|
  {
    if sizes == [] {
      assert ([] + [size])[1..] == [];
    } else {
      assert (sizes + [size])[1..] == sizes[1..] + [size];
      SumLast(sizes[1..], size);
    }
  }

  lemma {:induction false} MessageReadsLast(start: nat, sizes: seq<nat>, size: nat, chunkSize: nat)
    requires chunkSize > 0
    ensures var mid := start + Sum(sizes);
            MessageReads(start, sizes + [size], chunkSize) ==
            MessageReads(start, sizes, chunkSize) + FrameReads(mid, mid + size, chunkSize)
    decreases |sizes|
  {
    hide FrameReads;
    if sizes == [] {
      assert ([] + [size])[1..] == [];
      assert MessageReads(start + size, [], chunkSize) == [];
    } else {
      assert (sizes + [size])[1..] == sizes[1..] + [size];
      MessageReadsLast(start + sizes[0], sizes[1..], size, chunkSize);
    }
  }

  lemma FollowsFrame(ends: seq<nat>, total: nat, sizes: seq<nat>, size: nat, chunkSize: nat)
    requires chunkSize > 0
    ensures Follows(ends, total, total, sizes, chunkSize) ==>
              Follows(ends, total, total + size, sizes + [size], chunkSize)
  {
    SumLast(sizes, size);
    MessageReadsLast(0, sizes, size, chunkSize);
    assert FrameReads(total, total, chunkSize) == [];
    hide FrameReads, MessageReads, Sum;
    assert ends + [] == ends;
  }
}
