/** A buffer made of chunks of one size, which stands for one flat sequence. */
module Chunks {
  import opened Arithmetic
  import opened Bytes

  /** The chunks one after the other. */
  ghost function Concat<T>(chunks: seq<array<T>>): seq<T>
    reads chunks
  {
    if chunks == [] then [] else Concat(chunks[..|chunks| - 1]) + chunks[|chunks| - 1][..]
  }

  lemma ConcatLast<T>(chunks: seq<array<T>>)
    requires chunks != []
    ensures Concat(chunks) == Concat(chunks[..|chunks| - 1]) + chunks[|chunks| - 1][..]
  {}

  lemma {:induction false} ConcatLength<T>(chunks: seq<array<T>>, size: nat)
    requires forall c :: c in chunks ==> c.Length == size
    ensures |Concat(chunks)| == |chunks| * size
  {
    if chunks == [] {
    } else {
      ConcatLength(chunks[..|chunks| - 1], size);
      assert |chunks| * size == (|chunks| - 1) * size + size;
    }
  }

  lemma {:induction false} ConcatAt<T>(chunks: seq<array<T>>, size: nat, k: nat, j: nat, i: nat)
    requires k < |chunks| && j < chunks[k].Length && i == k * size + j
    requires forall l :: 0 <= l < |chunks| - 1 ==> chunks[l].Length == size
    ensures i < |Concat(chunks)| && Concat(chunks)[i] == chunks[k][j]
  {
    var n := |chunks| - 1;
    ConcatLength(chunks[..n], size);
    if k == n {
    } else {
      Monotone(k + 1, n, size);
      assert (k + 1) * size == k * size + size;
      ConcatAt(chunks[..n], size, k, j, i);
    }
  }

  /** Which chunk an element of a packed buffer is in. */
  lemma InChunk(i: nat, size: nat, n: nat, last: nat, q: nat, r: nat)
    requires 0 < n && last <= size && i < (n - 1) * size + last && i == q * size + r && r < size
    ensures q < n && (q == n - 1 ==> r < last)
  {
    assert n * size == (n - 1) * size + size;
    if q >= n {
      Monotone(n, q, size);
    }
  }

  lemma Shortened<T>(s: seq<T>, t: seq<T>, n: nat)
    requires n <= |t|
    ensures s + t[..n] == (s + t)[..|s| + n]
  {}

  /** Shortened, or made longer with copies of `fill`. */
  function Resized<T>(s: seq<T>, size: nat, fill: T): (r: seq<T>)
    ensures |r| == size
  {
    if size <= |s| then s[..size] else s + seq(size - |s|, _ => fill)
  }

  method Resize<T>(a: array<T>, size: nat, fill: T) returns (r: array<T>)
    ensures fresh(r) && r[..] == Resized(a[..], size, fill)
  {
    r := new T[size](i reads a => if 0 <= i < a.Length then a[i] else fill);
  }

  class ChunkVector<T> {
    var chunks: seq<array<T>>
    var open: bool
    const chunkSize: uint64
    // What new elements are.
    const fill: T

    ghost predicate Valid()
      reads this
    {
      && chunkSize > 0
      && (forall i, j :: 0 <= i < j < |chunks| ==> chunks[i] != chunks[j])
      && (forall i :: 0 <= i < |chunks| - 1 ==> chunks[i].Length == chunkSize)
      && (chunks != [] ==> chunks[|chunks| - 1].Length <= chunkSize)
      && (chunks != [] && open ==> chunks[|chunks| - 1].Length == chunkSize)
    }

    constructor (chunkSize: uint64, fill: T)
      requires chunkSize > 0
      ensures Valid() && open && chunks == [] && this.chunkSize == chunkSize && this.fill == fill
    {
      this.chunks, this.open, this.chunkSize, this.fill := [], true, chunkSize, fill;
    }

    ghost function Flat(): seq<T>
      reads this, chunks
    {
      Concat(chunks)
    }

    /** The first `i` elements, where `i` falls into the last chunk or on its beginning. */
    ghost function Prefix(i: nat): seq<T>
      reads this, chunks
    {
      if chunks == [] then []
      else
        var n := |chunks| - 1;
        var j := i - n * chunkSize;
        Concat(chunks[..n]) + if 0 <= j <= chunks[n].Length then chunks[n][..j] else []
    }

    lemma PrefixAt(i: nat, j: nat)
      requires chunks != [] && i == (|chunks| - 1) * chunkSize + j && j <= chunks[|chunks| - 1].Length
      ensures Prefix(i) == Concat(chunks[..|chunks| - 1]) + chunks[|chunks| - 1][..j]
    {}

    /** How many elements there are. */
    ghost function Length(): nat
      requires Valid()
      reads this
    {
      if |chunks| == 0 then 0 else (|chunks| - 1) * chunkSize + chunks[|chunks| - 1].Length
    }

    /** The same as a 64-bit number, which wraps around. */
    function Size(): uint64
      requires Valid()
      reads this
    {
      if |chunks| == 0 then 0 else ((|chunks| - 1) * chunkSize + chunks[|chunks| - 1].Length) % U64
    }

    lemma LengthIsFlat()
      requires Valid()
      ensures Length() == |Flat()|
      ensures open ==> Length() == |chunks| * chunkSize
    {
      if chunks != [] {
        ConcatLength(chunks[..|chunks| - 1], chunkSize);
      }
    }

    /** The size is right exactly as long as it does not wrap. */
    lemma SizeIsLength()
      requires Valid()
      ensures Size() == |Flat()| <==> |Flat()| < U64
      ensures Size() == Length() % U64
    {
      LengthIsFlat();
      if |Flat()| < U64 {
        Quotient(|Flat()|, U64, 0, |Flat()|);
      }
    }

    /** Such a prefix is a prefix of the whole. */
    lemma PrefixIsPrefix(i: nat)
      requires Valid() && i <= Length() && (chunks != [] ==> (|chunks| - 1) * chunkSize <= i)
      ensures i <= |Flat()| && Prefix(i) == Flat()[..i]
    {
      LengthIsFlat();
      if chunks != [] {
        var n := |chunks| - 1;
        ConcatLength(chunks[..n], chunkSize);
        Shortened(Concat(chunks[..n]), chunks[n][..], i - n * chunkSize);
      }
    }

    /** Fails on a closed buffer. */
    method NewChunk() returns (ok: bool)
      requires Valid()
      modifies this
      ensures Valid() && open == old(open) && ok == open
      ensures !ok ==> chunks == old(chunks)
      ensures ok ==> |chunks| == |old(chunks)| + 1 && chunks[..|old(chunks)|] == old(chunks)
      ensures ok ==> fresh(chunks[|old(chunks)|]) && chunks[|old(chunks)|].Length == chunkSize
      ensures ok ==> forall j :: 0 <= j < chunkSize ==> chunks[|old(chunks)|][j] == fill
      ensures ok ==> Prefix(|old(chunks)| * chunkSize) == old(Flat())
    {
      if !open {
        return false;
      }
      var chunk := new T[chunkSize](_ => fill);
      ghost var before := chunks;
      chunks := chunks + [chunk];
      assert chunks[..|before|] == before;
      return true;
    }

    lemma NoChunks()
      requires chunks == []
      ensures Flat() == []
    {}

    /** Gives the last chunk, if there is one, another size and closes the buffer. */
    method CloseLastChunk(size: nat)
      requires Valid()
      modifies this
      ensures !open && |chunks| == |old(chunks)| && (size <= chunkSize ==> Valid())
      ensures chunks != [] ==>
                var n := |chunks| - 1;
                && chunks[..n] == old(chunks)[..n] && fresh(chunks[n])
                && chunks[n][..] == Resized(old(chunks[n][..]), size, fill)
      ensures size <= chunkSize ==> Length() == if chunks == [] then 0 else (|chunks| - 1) * chunkSize + size
      ensures chunks == [] || size <= old(chunks)[|chunks| - 1].Length ==>
                Flat() == old(Prefix(if chunks == [] then 0 else (|chunks| - 1) * chunkSize + size))
    {
      hide Concat;
      if |chunks| > 0 {
        ghost var n := |chunks| - 1;
        ghost var front, last := chunks[..n], chunks[n][..];
        var resized := Resize(chunks[|chunks| - 1], size, fill);
        chunks := chunks[..|chunks| - 1] + [resized];
        assert chunks[..n] == front;
        assert chunks[n].Length == |chunks[n][..]| == size;
        ConcatLast(chunks);
      } else {
        NoChunks();
      }
      open := false;
    }

    lemma Sized()
      requires Valid()
      ensures chunkSize > 0
    {}

    lemma InThere(i: nat, q: nat, r: nat)
      requires Valid() && i < Length() && i == q * chunkSize + r && r < chunkSize
      ensures q < |chunks| && r < chunks[q].Length
      ensures i < |Flat()| && Flat()[i] == chunks[q][r]
    {
      hide Concat;
      InChunk(i, chunkSize, |chunks|, chunks[|chunks| - 1].Length, q, r);
      ConcatAt(chunks, chunkSize, q, r, i);
    }

    /** The place of element `i`: a chunk and an index in it. */
    method At(i: nat) returns (chunk: array<T>, offset: nat)
      requires Valid() && i < Length()
      ensures i / chunkSize < |chunks| && chunk == chunks[i / chunkSize]
      ensures offset == i % chunkSize < chunk.Length
      ensures i < |Flat()| && Flat()[i] == chunk[offset]
    {
      hide *;
      Sized();
      Divide(i, chunkSize);
      InThere(i, i / chunkSize, i % chunkSize);
      chunk, offset := chunks[i / chunkSize], i % chunkSize;
    }
  }
}
