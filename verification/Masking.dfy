/** Unmasking in place, four bytes at a time, with the UTF-8 check on the way. */
module Masking {
  import opened Arithmetic
  import opened Bytes
  import opened Sequences
  import Utf8

  /** One more byte of `s`; a failure there is a failure of all of `s`. */
  lemma ConsumeNext(start: Utf8.Expect, s: seq<byte>, n: nat)
    requires n < |s|
    ensures Utf8.Consume(start, s[..n + 1]) == Utf8.Next(Utf8.Consume(start, s[..n]), s[n])
    ensures Utf8.Consume(start, s[..n + 1]) == Utf8.Failed ==> Utf8.Consume(start, s) == Utf8.Failed
  {
    assert s[..n + 1][..n] == s[..n];
    if Utf8.Consume(start, s[..n + 1]) == Utf8.Failed {
      Utf8.FailedPrefix(start, s, n + 1);
    }
  }

  /** The bytes from `from` on drive the checker up to the first failure. */
  method Check(data: array<byte>, from: nat, length: nat, utf8: Utf8.Byte)
    requires from + length <= data.Length
    requires utf8.Valid() && utf8.Ok()
    modifies utf8
    ensures utf8.Valid()
    ensures utf8.Expecting() == Utf8.Consume(old(utf8.Expecting()), data[from..from + length])
  {
    hide Utf8.Consume, Utf8.Next, Utf8.Byte.Valid, Utf8.Byte.Expecting, Utf8.Byte.Ok;
    ghost var start, s := utf8.Expecting(), data[from..from + length];
    var it, end := from, from + length;
    while it < end
      invariant from <= it <= end
      invariant utf8.Valid() && utf8.Ok()
      invariant utf8.Expecting() == Utf8.Consume(start, s[..it - from])
    {
      var ok := utf8.Validate(data[it]);
      ConsumeNext(start, s, it - from);
      if !ok {
        return;
      }
      it := it + 1;
    }
    assert s[..length] == s;
  }

  /** Four bytes of the unrolled loop. */
  method XorFour(data: array<byte>, it: nat, key: Key, maskOffset: uint8)
    requires it + 4 <= data.Length
    modifies data
    ensures data[..it] == old(data[..it]) && data[it + 4..] == old(data[it + 4..])
    ensures data[it] == old(data[it]) ^ key[(maskOffset + 0) % 4]
    ensures data[it + 1] == old(data[it + 1]) ^ key[(maskOffset + 1) % 4]
    ensures data[it + 2] == old(data[it + 2]) ^ key[(maskOffset + 2) % 4]
    ensures data[it + 3] == old(data[it + 3]) ^ key[(maskOffset + 3) % 4]
  {
    data[it] := data[it] ^ key[(maskOffset + 0) % 4];
    data[it + 1] := data[it + 1] ^ key[(maskOffset + 1) % 4];
    data[it + 2] := data[it + 2] ^ key[(maskOffset + 2) % 4];
    data[it + 3] := data[it + 3] ^ key[(maskOffset + 3) % 4];
  }

  lemma FourOctets(before: seq<byte>, after: seq<byte>, key: Key, maskOffset: nat)
    requires |before| == |after| == 4
    requires after[0] == before[0] ^ key[(maskOffset + 0) % 4]
    requires after[1] == before[1] ^ key[(maskOffset + 1) % 4]
    requires after[2] == before[2] ^ key[(maskOffset + 2) % 4]
    requires after[3] == before[3] ^ key[(maskOffset + 3) % 4]
    ensures after == Unmask(before, key, maskOffset)
  {
    UnmaskAt(before, key, maskOffset, 0);
    UnmaskAt(before, key, maskOffset, 1);
    UnmaskAt(before, key, maskOffset, 2);
    UnmaskAt(before, key, maskOffset, 3);
  }

  /** The four checks of the unrolled loop. */
  method CheckFour(data: array<byte>, it: nat, utf8: Utf8.Byte) returns (ok: bool)
    requires it + 4 <= data.Length
    requires utf8.Valid() && utf8.Ok()
    modifies utf8
    ensures utf8.Valid() && ok == utf8.Ok()
    ensures utf8.Expecting() == Utf8.Consume(old(utf8.Expecting()), data[it..it + 4])
  {
    hide *;
    ghost var start, s := utf8.Expecting(), data[it..it + 4];
    ConsumeNext(start, s, 0);
    ok := utf8.Validate(data[it]);
    if !ok { return; }
    ConsumeNext(start, s, 1);
    ok := utf8.Validate(data[it + 1]);
    if !ok { return; }
    ConsumeNext(start, s, 2);
    ok := utf8.Validate(data[it + 2]);
    if !ok { return; }
    ConsumeNext(start, s, 3);
    assert s[..4] == s;
    ok := utf8.Validate(data[it + 3]);
  }

  /** One round of the unrolled loop: all four bytes are unmasked before the first of them is checked. */
  method MaskFour(data: array<byte>, it: nat, key: Key, maskOffset: uint8, isUtf8: bool, utf8: Utf8.Byte)
    returns (ok: bool)
    requires it + 4 <= data.Length
    requires utf8.Valid() && (isUtf8 ==> utf8.Ok())
    modifies data, utf8
    ensures data[..it] == old(data[..it]) && data[it + 4..] == old(data[it + 4..])
    ensures data[it..it + 4] == Unmask(old(data[it..it + 4]), key, maskOffset)
    ensures utf8.Valid()
    ensures !isUtf8 ==> ok && utf8.Expecting() == old(utf8.Expecting())
    ensures isUtf8 ==> utf8.Expecting() == Utf8.Consume(old(utf8.Expecting()), data[it..it + 4])
    ensures isUtf8 ==> ok == utf8.Ok()
  {
    hide *;
    ghost var before := data[it..it + 4];
    XorFour(data, it, key, maskOffset);
    FourOctets(before, data[it..it + 4], key, maskOffset);
    ok := true;
    if isUtf8 {
      ok := CheckFour(data, it, utf8);
    }
  }

  lemma SplitStretch<T>(before: seq<T>, mid: seq<T>, from: nat, it: nat, end: nat)
    requires |before| == |mid| && from <= it <= end <= |before| && mid[it..] == before[it..]
    ensures before[from..end] == before[from..it] + before[it..end]
    ensures mid[it..end] == before[it..end]
  {
    assert mid[it..][..end - it] == before[it..][..end - it];
  }

  lemma JoinedStretch<T>(mid: seq<T>, after: seq<T>, from: nat, it: nat, end: nat)
    requires |mid| == |after| && from <= it <= end <= |mid| && after[..it] == mid[..it]
    ensures after[from..end] == mid[from..it] + after[it..end]
  {
    assert after[from..it] == after[..it][from..] == mid[from..it];
  }

  lemma WholeStrides(k: nat, n: nat, m: nat)
    requires n % 4 == 0
    ensures (k + m) % 4 == (k + n + m) % 4
  {}

  /** Two adjacent stretches of `before`, unmasked one after the other, are one unmasked stretch of `after`. */
  lemma JoinStretches(before: seq<byte>, mid: seq<byte>, after: seq<byte>, from: nat, it: nat, end: nat, key: Key,
                      k: nat)
    requires |before| == |mid| == |after| && from <= it <= end <= |before| && (it - from) % 4 == 0
    requires mid[from..it] == Unmask(before[from..it], key, k)
    requires mid[it..] == before[it..]
    requires after[..it] == mid[..it]
    requires after[it..end] == Unmask(mid[it..end], key, k)
    ensures after[from..end] == Unmask(before[from..end], key, k)
  {
    hide Unmask;
    SplitStretch(before, mid, from, it, end);
    UnmaskConcat(before[from..it], before[it..end], key, k);
    WholeStrides(k, it - from, 0);
    UnmaskOffset(before[it..end], key, k, k + (it - from));
    JoinedStretch(mid, after, from, it, end);
  }

  lemma SameOutside<T>(before: seq<T>, mid: seq<T>, after: seq<T>, from: nat, it: nat, end: nat)
    requires |before| == |mid| == |after| && from <= it <= end <= |before|
    requires mid[..from] == before[..from] && mid[it..] == before[it..]
    requires after[..it] == mid[..it] && after[end..] == mid[end..]
    ensures after[..from] == before[..from] && after[end..] == before[end..]
  {
    assert after[..from] == after[..it][..from];
    assert mid[end..] == mid[it..][end - it..];
  }

  /** The unrolled loop.  It stops with fewer than four bytes left, or at a failed check. */
  method MaskStrides(data: array<byte>, from: nat, length: nat, key: Key, maskOffset: uint8, isUtf8: bool,
                     utf8: Utf8.Byte)
    returns (it: nat, ok: bool)
    requires from + length <= data.Length
    requires utf8.Valid() && (isUtf8 ==> utf8.Ok())
    modifies data, utf8
    ensures from <= it <= from + length && (it - from) % 4 == 0
    ensures utf8.Valid() && (isUtf8 ==> ok == utf8.Ok()) && (!isUtf8 ==> ok)
    ensures utf8.Expecting() ==
            if isUtf8 then Utf8.Consume(old(utf8.Expecting()), Unmask(old(data[from..it]), key, maskOffset))
            else old(utf8.Expecting())
    ensures data[..from] == old(data[..from]) && data[it..] == old(data[it..])
    ensures data[from..it] == Unmask(old(data[from..it]), key, maskOffset)
    ensures ok ==> from + length < it + 4
    ensures !ok ==> it >= from + 4 &&
                    Utf8.Consume(old(utf8.Expecting()), Unmask(old(data[from..it - 4]), key, maskOffset)) != Utf8.Failed
  {
    hide *;
    ghost var before, start := data[..], utf8.Expecting();
    it, ok := from, true;
    if length < 4 {
      return;
    }
    var end := from + length;
    while it <= end - 4
      invariant from <= it <= end
      invariant (it - from) % 4 == 0
      invariant ok && utf8.Valid() && (isUtf8 ==> utf8.Ok())
      invariant utf8.Expecting() ==
                if isUtf8 then Utf8.Consume(start, Unmask(before[from..it], key, maskOffset)) else start
      invariant data[..from] == before[..from] && data[it..] == before[it..]
      invariant data[from..it] == Unmask(before[from..it], key, maskOffset)
    {
      ghost var mid := data[..];
      ok := MaskFour(data, it, key, maskOffset, isUtf8, utf8);
      JoinStretches(before, mid, data[..], from, it, it + 4, key, maskOffset);
      SameOutside(before, mid, data[..], from, it, it + 4);
      if isUtf8 {
        JoinedStretch(mid, data[..], from, it, it + 4);
        Utf8.ConsumeConcat(start, mid[from..it], data[it..it + 4]);
      }
      it := it + 4;
      assert it - 4 >= from;
      if !ok {
        return;
      }
    }
  }

  method XorOne(data: array<byte>, it: nat, key: Key, maskOffset: uint8)
    requires it < data.Length
    modifies data
    ensures data[..it] == old(data[..it]) && data[it + 1..] == old(data[it + 1..])
    ensures data[it] == old(data[it]) ^ key[maskOffset % 4]
  {
    data[it] := data[it] ^ key[maskOffset % 4];
  }

  /** One more element of `before` has been replaced by its counterpart in `plain`. */
  lemma OneMore<T>(before: seq<T>, mid: seq<T>, after: seq<T>, plain: seq<T>, from: nat, it: nat)
    requires |before| == |mid| == |after| && from <= it < |before| && it - from < |plain|
    requires mid[..from] == before[..from] && mid[it..] == before[it..] && mid[from..it] == plain[..it - from]
    requires after[..it] == mid[..it] && after[it + 1..] == mid[it + 1..] && after[it] == plain[it - from]
    ensures after[..from] == before[..from] && after[it + 1..] == before[it + 1..]
    ensures after[from..it + 1] == plain[..it - from + 1]
  {
    assert after[..from] == after[..it][..from];
    assert after[from..it] == after[..it][from..];
    assert mid[it + 1..] == mid[it..][1..];
  }

  lemma NextOctet(before: seq<byte>, from: nat, end: nat, n: nat, key: Key, k: nat, l: nat)
    requires from + n < end <= |before| && l % 4 == (k + n) % 4
    ensures Unmask(before[from..end], key, k)[n] == before[from + n] ^ key[l % 4]
  {
    UnmaskAt(before[from..end], key, k, n);
  }

  /** The byte-by-byte loop.  `done` bytes have been unmasked when it ends, the last of them a failed one or not. */
  method MaskBytes(data: array<byte>, from: nat, end: nat, key: Key, maskOffset: uint8, isUtf8: bool,
                   utf8: Utf8.Byte)
    returns (newOffset: uint8, ghost done: nat)
    requires from <= end <= data.Length
    requires utf8.Valid() && (isUtf8 ==> utf8.Ok())
    modifies data, utf8
    ensures utf8.Valid() && from + done <= end
    ensures var plain := Unmask(old(data[from..end]), key, maskOffset);
            && data[..from] == old(data[..from]) && data[from + done..] == old(data[from + done..])
            && data[from..from + done] == plain[..done]
            && utf8.Expecting() ==
               (if isUtf8 then Utf8.Consume(old(utf8.Expecting()), plain[..done]) else old(utf8.Expecting()))
            && if !isUtf8 || utf8.Ok() then from + done == end && newOffset == (maskOffset + (end - from)) % 256
               else
                 && 0 < done && Utf8.Consume(old(utf8.Expecting()), plain[..done - 1]) != Utf8.Failed
                 && newOffset == (maskOffset + (done - 1)) % 256
  {
    hide *;
    newOffset := maskOffset;
    ghost var before, start := data[..], utf8.Expecting();
    ghost var plain := Unmask(data[from..end], key, maskOffset);
    var it := from;
    done := 0;
    while it < end
      invariant from <= it <= end && done == it - from
      invariant newOffset == (maskOffset + done) % 256
      invariant utf8.Valid() && (isUtf8 ==> utf8.Ok())
      invariant utf8.Expecting() == if isUtf8 then Utf8.Consume(start, plain[..done]) else start
      invariant data[..from] == before[..from] && data[it..] == before[it..]
      invariant data[from..it] == plain[..done]
    {
      ghost var mid := data[..];
      Modulo4(maskOffset + done);
      Modulo256(maskOffset + done);
      NextOctet(before, from, end, done, key, maskOffset, newOffset);
      XorOne(data, it, key, newOffset);
      OneMore(before, mid, data[..], plain, from, it);
      done := done + 1;
      if isUtf8 {
        ConsumeNext(start, plain, done - 1);
        var ok := utf8.Validate(data[it]);
        if !ok {
          return;
        }
      }
      it, newOffset := it + 1, (newOffset + 1) % 256;
    }
  }

  /** How many bytes have been unmasked when the check of the byte at `stop` fails, or none does: the unrolled loop
      unmasks four bytes before it checks the first of them. */
  function Touched(stop: nat, length: nat): nat {
    if stop >= length then length else if stop < length / 4 * 4 then stop / 4 * 4 + 4 else stop + 1
  }

  /** The offset is advanced only behind the unrolled loop. */
  function Advanced(maskOffset: nat, stop: nat, length: nat): nat {
    if stop < length / 4 * 4 then maskOffset else (maskOffset + (stop - length / 4 * 4)) % 256
  }

  /** After a whole number of strides: the unmasked range, in the two pieces the loops work on. */
  lemma TwoStretches(before: seq<byte>, mid: seq<byte>, after: seq<byte>, from: nat, it: nat, end: nat, done: nat,
                     key: Key, k: nat)
    requires |before| == |mid| == |after| && from <= it <= end <= |before| && (it - from) % 4 == 0 && done <= end - it
    requires mid[..from] == before[..from] && mid[it..] == before[it..]
    requires mid[from..it] == Unmask(before[from..it], key, k)
    requires after[..it] == mid[..it] && after[it + done..] == mid[it + done..]
    requires after[it..it + done] == Unmask(mid[it..end], key, k)[..done]
    ensures var plain, n := Unmask(before[from..end], key, k), it - from;
            && plain == Unmask(before[from..it], key, k) + Unmask(mid[it..end], key, k)
            && after[from..from + (n + done)] == plain[..n + done]
            && after[..from] == before[..from] && after[from + (n + done)..] == before[from + (n + done)..]
  {
    hide Unmask;
    var a, b := before[from..it], before[it..end];
    SplitStretch(before, mid, from, it, end);
    UnmaskConcat(a, b, key, k);
    WholeStrides(k, it - from, 0);
    UnmaskOffset(b, key, k, k + (it - from));
    SameOutside(before, mid, after, from, it, it + done);
    JoinedStretch(mid, after, from, it, it + done);
    TakeMore(Unmask(a, key, k) + Unmask(b, key, k), it - from, done);
    Cut(Unmask(a, key, k) + Unmask(b, key, k), Unmask(a, key, k), Unmask(b, key, k));
    assert (Unmask(a, key, k) + Unmask(b, key, k))[it - from..it - from + done] == Unmask(b, key, k)[..done];
  }

  lemma Strides(length: nat, done: nat)
    requires done <= length && done % 4 == 0
    ensures done <= length / 4 * 4
    ensures length < done + 4 ==> done == length / 4 * 4
    ensures forall stop: nat :: stop < done <= stop + 4 ==> stop / 4 * 4 + 4 == done
  {
    forall stop: nat | stop < done <= stop + 4
      ensures stop / 4 * 4 + 4 == done
    {
      assert stop == stop / 4 * 4 + stop % 4;
    }
  }

  /** A failure in the unrolled loop. */
  lemma StoppedInStride(e: Utf8.Expect, plain: seq<byte>, done: nat, k: uint8)
    requires e != Utf8.Failed && 4 <= done <= |plain| && done % 4 == 0
    requires Utf8.Consume(e, plain[..done]) == Utf8.Failed && Utf8.Consume(e, plain[..done - 4]) != Utf8.Failed
    ensures Utf8.Consume(e, plain) == Utf8.Failed
    ensures var stop := Utf8.Survived(e, plain); done == Touched(stop, |plain|) && k == Advanced(k, stop, |plain|)
  {
    Utf8.SurvivedIff(e, plain, done);
    Utf8.SurvivedIff(e, plain, done - 4);
    Utf8.FailedPrefix(e, plain, done);
    hide Utf8.Consume, Utf8.Survived;
    Strides(|plain|, done);
  }

  lemma TailNumbers(n: nat, m: nat, done: nat, stop: nat, k: nat)
    requires n % 4 == 0 && m < 4 && done <= m
    requires (done == m && stop == n + m) || (0 < done && stop == n + (done - 1))
    ensures n + done == Touched(stop, n + m) && Advanced(k, stop, n + m) == (k + (stop - n)) % 256
  {
    Strides(n + m, n);
  }

  lemma Continued(e: Utf8.Expect, a: seq<byte>, b: seq<byte>, n: nat)
    requires e != Utf8.Failed && n <= |b|
    ensures Utf8.Consume(e, (a + b)[..|a| + n]) == Utf8.Consume(Utf8.Consume(e, a), b[..n])
    ensures Utf8.Consume(e, (a + b)[..|a| + n]) != Utf8.Failed <==> |a| + n <= Utf8.Survived(e, a + b)
  {
    hide *;
    assert (a + b)[..|a| + n] == a + b[..n];
    Utf8.ConsumeConcat(e, a, b[..n]);
    Utf8.SurvivedIff(e, a + b, |a| + n);
  }

  /** No failure, or one behind the unrolled loop. */
  lemma StoppedBehind(e: Utf8.Expect, a: seq<byte>, b: seq<byte>, done: nat, isUtf8: bool, k: uint8, newOffset: uint8)
    requires |a| % 4 == 0 && |b| < 4 && done <= |b| && (isUtf8 ==> e != Utf8.Failed)
    requires isUtf8 ==> Utf8.Consume(e, a) != Utf8.Failed
    requires var f := Utf8.Consume(Utf8.Consume(e, a), b[..done]);
             if !isUtf8 || f != Utf8.Failed then done == |b| && newOffset == (k + |b|) % 256
             else
               && 0 < done && Utf8.Consume(Utf8.Consume(e, a), b[..done - 1]) != Utf8.Failed
               && newOffset == (k + (done - 1)) % 256
    ensures var stop := if isUtf8 then Utf8.Survived(e, a + b) else |a| + |b|;
            |a| + done == Touched(stop, |a| + |b|) && newOffset == Advanced(k, stop, |a| + |b|)
    ensures isUtf8 ==> Utf8.Consume(Utf8.Consume(e, a), b[..done]) == Utf8.Consume(e, a + b)
  {
    hide *;
    if !isUtf8 {
      TailNumbers(|a|, |b|, done, |a| + |b|, k);
    } else {
      Continued(e, a, b, done);
      var stop := Utf8.Survived(e, a + b);
      if Utf8.Consume(Utf8.Consume(e, a), b[..done]) == Utf8.Failed {
        Continued(e, a, b, done - 1);
        Utf8.FailedPrefix(e, a + b, |a| + done);
      } else {
        assert (a + b)[..|a| + |b|] == a + b;
      }
      TailNumbers(|a|, |b|, done, stop, k);
    }
  }

  lemma FirstStride(before: seq<byte>, from: nat, it: nat, end: nat, key: Key, k: nat)
    requires from + 4 <= it <= end <= |before|
    ensures Unmask(before[from..end], key, k)[..it - from] == Unmask(before[from..it], key, k)
    ensures Unmask(before[from..end], key, k)[..it - from - 4] == Unmask(before[from..it - 4], key, k)
  {
    hide Unmask;
    Adjacent(before, from, it, end);
    Adjacent(before, from, it - 4, end);
    UnmaskConcat(before[from..it], before[it..end], key, k);
    UnmaskConcat(before[from..it - 4], before[it - 4..end], key, k);
  }

  /** The unrolled loop has met a failure. */
  lemma FailedStride(before: seq<byte>, mid: seq<byte>, from: nat, it: nat, end: nat, key: Key, k: uint8,
                     e: Utf8.Expect)
    requires |before| == |mid| && from + 4 <= it <= end <= |before| && (it - from) % 4 == 0 && e != Utf8.Failed
    requires mid[..from] == before[..from] && mid[it..] == before[it..]
    requires mid[from..it] == Unmask(before[from..it], key, k)
    requires Utf8.Consume(e, Unmask(before[from..it], key, k)) == Utf8.Failed
    requires Utf8.Consume(e, Unmask(before[from..it - 4], key, k)) != Utf8.Failed
    ensures var plain := Unmask(before[from..end], key, k);
            var stop := Utf8.Survived(e, plain);
            && mid[from..it] == plain[..it - from]
            && Utf8.Consume(e, plain) == Utf8.Failed
            && it - from == Touched(stop, end - from) && k == Advanced(k, stop, end - from)
  {
    hide *;
    FirstStride(before, from, it, end, key, k);
    StoppedInStride(e, Unmask(before[from..end], key, k), it - from, k);
  }

  /** Both loops have run. */
  lemma BothLoops(before: seq<byte>, mid: seq<byte>, after: seq<byte>, from: nat, it: nat, end: nat, done: nat,
                  key: Key, k: uint8, e: Utf8.Expect, isUtf8: bool, newOffset: uint8)
    requires |before| == |mid| == |after| && from <= it <= end <= |before| && (it - from) % 4 == 0
    requires end - it < 4 && done <= end - it
    requires mid[..from] == before[..from] && mid[it..] == before[it..]
    requires mid[from..it] == Unmask(before[from..it], key, k)
    requires after[..it] == mid[..it] && after[it + done..] == mid[it + done..]
    requires after[it..it + done] == Unmask(mid[it..end], key, k)[..done]
    requires isUtf8 ==> e != Utf8.Failed && Utf8.Consume(e, Unmask(before[from..it], key, k)) != Utf8.Failed
    requires var middle, rest := Utf8.Consume(e, Unmask(before[from..it], key, k)), Unmask(mid[it..end], key, k);
             if !isUtf8 || Utf8.Consume(middle, rest[..done]) != Utf8.Failed then
               it + done == end && newOffset == (k + (end - it)) % 256
             else
               0 < done && Utf8.Consume(middle, rest[..done - 1]) != Utf8.Failed && newOffset == (k + (done - 1)) % 256
    ensures var plain, n := Unmask(before[from..end], key, k), it - from + done;
            var stop := if isUtf8 then Utf8.Survived(e, plain) else end - from;
            && after[..from] == before[..from] && after[from + n..] == before[from + n..]
            && after[from..from + n] == plain[..n]
            && (isUtf8 ==> Utf8.Consume(Utf8.Consume(e, Unmask(before[from..it], key, k)),
                                        Unmask(mid[it..end], key, k)[..done]) == Utf8.Consume(e, plain))
            && n == Touched(stop, end - from) && newOffset == Advanced(k, stop, end - from)
  {
    hide *;
    TwoStretches(before, mid, after, from, it, end, done, key, k);
    var head, rest := Unmask(before[from..it], key, k), Unmask(mid[it..end], key, k);
    StoppedBehind(e, head, rest, done, isUtf8, k, newOffset);
  }

  /** The unrolled loop, then the byte-by-byte loop for what is left. */
  method MaskAndCheck(data: array<byte>, from: nat, length: nat, key: Key, maskOffset: uint8, isUtf8: bool,
                      utf8: Utf8.Byte)
    returns (newOffset: uint8, ghost done: nat)
    requires from + length <= data.Length
    requires utf8.Valid() && (isUtf8 ==> utf8.Ok())
    modifies data, utf8
    ensures utf8.Valid() && done <= length
    ensures var plain := Unmask(old(data[from..from + length]), key, maskOffset);
            var stop := if isUtf8 then Utf8.Survived(old(utf8.Expecting()), plain) else length;
            && data[..from] == old(data[..from]) && data[from + done..] == old(data[from + done..])
            && data[from..from + done] == plain[..done]
            && utf8.Expecting() ==
               (if isUtf8 then Utf8.Consume(old(utf8.Expecting()), plain) else old(utf8.Expecting()))
            && done == Touched(stop, length) && newOffset == Advanced(maskOffset, stop, length)
  {
    hide *;
    newOffset := maskOffset;
    ghost var before, start, end := data[..], utf8.Expecting(), from + length;
    var it, ok := MaskStrides(data, from, length, key, maskOffset, isUtf8, utf8);
    ghost var mid := data[..];
    done := it - from;
    if !ok {
      FailedStride(before, mid, from, it, end, key, maskOffset, start);
      return;
    }
    ghost var tail;
    newOffset, tail := MaskBytes(data, it, from + length, key, maskOffset, isUtf8, utf8);
    BothLoops(before, mid, data[..], from, it, end, tail, key, maskOffset, start, isUtf8, newOffset);
    done := done + tail;
  }

  /** The offset that a call leaves behind, when it has unmasked all of its range. */
  ghost predicate Leaves(key: Key, k: nat, length: nat, k': nat) {
    if key == ZERO_KEY then k' == k else k' % 4 == (k + length) % 4
  }

  /** What the two functions come to. */
  lemma Extremes(stop: nat, length: nat, k: uint8)
    requires stop <= length
    ensures Touched(stop, length) <= length && Touched(length, length) == length
    ensures Advanced(k, length, length) % 4 == (k + length) % 4
    ensures length == 0 ==> Advanced(k, stop, length) == k
  {
    Divide(length, 4);
    Divide(stop, 4);
    var strides := length / 4 * 4;
    Quotient(strides, 4, length / 4, 0);
    Modulo4(k + (length - strides));
    WholeStrides(k, strides, length - strides);
  }

  lemma AllDone(key: Key, k: uint8, length: nat, e: Utf8.Expect, plain: seq<byte>, isUtf8: bool)
    requires |plain| == length && (isUtf8 ==> e != Utf8.Failed)
    ensures var stop := if isUtf8 then Utf8.Survived(e, plain) else length;
            && Touched(stop, length) <= length && Touched(length, length) == length
            && (isUtf8 && Utf8.Consume(e, plain) != Utf8.Failed ==> stop == length)
            && Leaves(key, k, length, if key == ZERO_KEY then k else Advanced(k, length, length))
            && (length == 0 ==> Advanced(k, stop, length) == k && plain == [] && Utf8.Consume(e, plain) == e)
  {
    hide Touched, Advanced, Utf8.Consume, Utf8.Survived;
    var stop := if isUtf8 then Utf8.Survived(e, plain) else length;
    Extremes(stop, length, k);
    if isUtf8 {
      Utf8.SurvivedIff(e, plain, length);
      assert plain[..length] == plain;
    }
  }

  lemma ZeroKey(key: Key)
    ensures key == ZERO_KEY <==> key[0] == 0x00 && key[1] == 0x00 && key[2] == 0x00 && key[3] == 0x00
  {}

  lemma Halves<T>(s: seq<T>, n: nat)
    requires n <= |s|
    ensures s[..n] + s[n..] == s
  {}

  lemma PartDone<T>(before: seq<T>, after: seq<T>, plain: seq<T>, from: nat, length: nat, done: nat)
    requires |before| == |after| && from + length <= |before| && |plain| == length && done <= length
    requires after[from..from + done] == plain[..done] && after[from + done..] == before[from + done..]
    ensures after[from..from + length] == plain[..done] + before[from..from + length][done..]
    ensures after[from + length..] == before[from + length..]
    ensures done == length ==> after[from..from + length] == plain
  {
    Adjacent(after, from, from + done, from + length);
    assert after[from + done..][..length - done] == before[from + done..][..length - done];
    assert before[from..from + length][done..] == before[from + done..][..length - done];
    assert after[from + length..] == after[from + done..][length - done..];
    assert before[from + length..] == before[from + done..][length - done..];
  }

  /** Unmasks `length` bytes of `data` from index `from` on.  The offset into the key and the state of the checker
      are taken over from the previous call and handed on to the next one.

      The checker always ends where the whole unmasked range takes it.  Text is unmasked up to the first byte that fails
      and, within the unrolled loop, to the end of that byte's stride; what is behind stays as it was.  The all-zero key
      leaves bytes and offset alone. */
  method ApplyMask(data: array<byte>, from: nat, length: nat, key: Key, maskOffset: uint8, isUtf8: bool,
                   utf8: Utf8.Byte)
    returns (newOffset: uint8)
    requires from + length <= data.Length
    requires utf8.Valid() && (isUtf8 ==> utf8.Ok())
    modifies data, utf8
    ensures utf8.Valid()
    ensures !isUtf8 ==> utf8.Expecting() == old(utf8.Expecting())
    ensures isUtf8 ==>
              utf8.Expecting() ==
              Utf8.Consume(old(utf8.Expecting()), Unmask(old(data[from..from + length]), key, maskOffset))
    ensures data[..from] == old(data[..from]) && data[from + length..] == old(data[from + length..])
    ensures var plain := Unmask(old(data[from..from + length]), key, maskOffset);
            var stop := if isUtf8 then Utf8.Survived(old(utf8.Expecting()), plain) else length;
            && (!isUtf8 || utf8.Ok() ==> stop == length)
            && data[from..from + length] ==
               plain[..Touched(stop, length)] + old(data[from..from + length])[Touched(stop, length)..]
            && newOffset == if key == ZERO_KEY then maskOffset else Advanced(maskOffset, stop, length)
    ensures !isUtf8 || utf8.Ok() ==>
              data[from..from + length] == Unmask(old(data[from..from + length]), key, maskOffset)
    ensures !isUtf8 || utf8.Ok() ==> Leaves(key, maskOffset, length, newOffset)
  {
    hide *;
    newOffset := maskOffset;
    ghost var before, start := data[..], utf8.Expecting();
    ghost var plain := Unmask(data[from..from + length], key, maskOffset);
    ghost var stop := if isUtf8 then Utf8.Survived(start, plain) else length;
    AllDone(key, maskOffset, length, start, plain, isUtf8);
    if length == 0 {
      return;
    }
    ZeroKey(key);
    if key[0] == 0x00 && key[1] == 0x00 && key[2] == 0x00 && key[3] == 0x00 {
      UnmaskZero(data[from..from + length], maskOffset);
      Halves(plain, Touched(stop, length));
      if isUtf8 {
        Check(data, from, length, utf8);
      }
      return;
    }
    ghost var done;
    newOffset, done := MaskAndCheck(data, from, length, key, maskOffset, isUtf8, utf8);
    PartDone(before, data[..], plain, from, length, done);
  }

  /** Offsets that agree modulo 4 give the same bytes; under the all-zero key any offset does. */
  lemma SameUnmask(raw: seq<byte>, key: Key, k: nat, l: nat)
    requires k % 4 == l % 4 || key == ZERO_KEY
    ensures Unmask(raw, key, k) == Unmask(raw, key, l)
  {
    if key == ZERO_KEY {
      UnmaskZero(raw, k);
      UnmaskZero(raw, l);
    } else {
      UnmaskOffset(raw, key, k, l);
    }
  }

  lemma InStepAgain(key: Key, k: nat, l: nat, amount: nat, k': nat)
    requires k % 4 == l % 4 || key == ZERO_KEY
    requires key != ZERO_KEY ==> k' % 4 == (k + amount) % 4
    ensures k' % 4 == (l + amount) % 4 || key == ZERO_KEY
  {
    if key != ZERO_KEY {
      SameOctet(k, l, amount);
    }
  }

  /** Two calls, the second one from the offset and the checker state that the first one leaves, come to the same as one
      call: in the bytes, in the checker, and in the offset that is left in the end. */
  lemma TwoCalls(a: seq<byte>, b: seq<byte>, key: Key, k: nat, k': nat, k'': nat, e: Utf8.Expect)
    requires Leaves(key, k, |a|, k')
    ensures Unmask(a + b, key, k) == Unmask(a, key, k) + Unmask(b, key, k')
    ensures Utf8.Consume(e, Unmask(a + b, key, k)) ==
            Utf8.Consume(Utf8.Consume(e, Unmask(a, key, k)), Unmask(b, key, k'))
    ensures Leaves(key, k', |b|, k'') <==> Leaves(key, k, |a| + |b|, k'')
  {
    hide Unmask, Utf8.Consume;
    UnmaskConcat(a, b, key, k);
    SameUnmask(b, key, k + |a|, k');
    Utf8.ConsumeConcat(e, Unmask(a, key, k), Unmask(b, key, k'));
    if key != ZERO_KEY {
      SameOctet(k', k + |a|, |b|);
    }
  }
}
