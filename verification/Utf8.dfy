/** UTF-8 as RFC 3629 defines it, and the incremental automaton that checks it byte by byte. */
module Utf8 {
  import opened Bytes

  // ---------------------------------------------------------------------------
  // The grammar of section 4 of RFC 3629
  // ---------------------------------------------------------------------------

  predicate IsTail(b: byte) {
    0x80 <= b <= 0xBF
  }

  /** The nonterminal UTF8-char. */
  predicate IsChar(c: seq<byte>) {
    || (|c| == 1 && c[0] <= 0x7F)
    || (|c| == 2 && 0xC2 <= c[0] <= 0xDF && IsTail(c[1]))
    || (|c| == 3 && IsTail(c[2]) &&
        (|| (c[0] == 0xE0 && 0xA0 <= c[1] <= 0xBF)
         || (0xE1 <= c[0] <= 0xEC && IsTail(c[1]))
         || (c[0] == 0xED && 0x80 <= c[1] <= 0x9F)
         || (0xEE <= c[0] <= 0xEF && IsTail(c[1]))))
    || (|c| == 4 && IsTail(c[2]) && IsTail(c[3]) &&
        (|| (c[0] == 0xF0 && 0x90 <= c[1] <= 0xBF)
         || (0xF1 <= c[0] <= 0xF3 && IsTail(c[1]))
         || (c[0] == 0xF4 && 0x80 <= c[1] <= 0x8F)))
  }

  /** The nonterminal UTF8-octets: any number of characters. */
  ghost predicate WellFormed(s: seq<byte>)
    decreases |s|
  {
    s == [] || exists n: nat :: 0 < n <= |s| && IsChar(s[..n]) && WellFormed(s[n..])
  }

  /** A prefix of some well-formed string. */
  ghost predicate Extendable(s: seq<byte>) {
    exists t: seq<byte> :: WellFormed(s + t)
  }

  // ---------------------------------------------------------------------------
  // What a checker is waiting for
  // ---------------------------------------------------------------------------

  datatype Range = Range(lo: byte, hi: byte) {
    predicate Has(b: byte) { lo <= b <= hi }
  }

  const TAIL := Range(0x80, 0xBF)

  /** Either the input is beyond repair, or these bytes are still missing from the current character. */
  datatype Expect = Failed | Awaiting(tail: seq<Range>)

  const START := Awaiting([])

  function Lead(b: byte): Expect {
    if b <= 0x7F then Awaiting([])
    else if b < 0xC2 then Failed
    else if b <= 0xDF then Awaiting([TAIL])
    else if b == 0xE0 then Awaiting([Range(0xA0, 0xBF), TAIL])
    else if b == 0xED then Awaiting([Range(0x80, 0x9F), TAIL])
    else if b <= 0xEF then Awaiting([TAIL, TAIL])
    else if b == 0xF0 then Awaiting([Range(0x90, 0xBF), TAIL, TAIL])
    else if b <= 0xF3 then Awaiting([TAIL, TAIL, TAIL])
    else if b == 0xF4 then Awaiting([Range(0x80, 0x8F), TAIL, TAIL])
    else Failed
  }

  function Next(e: Expect, b: byte): Expect {
    match e
    case Failed => Failed
    case Awaiting(tail) =>
      if tail == [] then Lead(b)
      else if tail[0].Has(b) then Awaiting(tail[1..])
      else Failed
  }

  function Consume(e: Expect, s: seq<byte>): (r: Expect)
    ensures s == [] ==> r == e
  {
    if s == [] then e else Next(Consume(e, s[..|s| - 1]), s[|s| - 1])
  }

  lemma {:induction false} ConsumeConcat(e: Expect, s: seq<byte>, t: seq<byte>)
    ensures Consume(e, s + t) == Consume(Consume(e, s), t)
  {
    if t == [] {
      assert s + t == s;
    } else {
      assert (s + t)[..|s + t| - 1] == s + t[..|t| - 1];
      ConsumeConcat(e, s, t[..|t| - 1]);
    }
  }

  lemma ConsumeOne(e: Expect, b: byte)
    ensures Consume(e, [b]) == Next(e, b)
  {
    assert [b][..0] == [];
  }

  lemma ConsumeFirst(e: Expect, s: seq<byte>)
    requires s != []
    ensures Consume(e, s) == Consume(Next(e, s[0]), s[1..])
  {
    assert s == [s[0]] + s[1..];
    ConsumeConcat(e, [s[0]], s[1..]);
    ConsumeOne(e, s[0]);
  }

  lemma {:induction false} FailedForever(s: seq<byte>)
    ensures Consume(Failed, s) == Failed
  {
    if s == [] {
    } else {
      FailedForever(s[..|s| - 1]);
    }
  }

  /** Once a prefix has failed, so has the whole. */
  lemma FailedPrefix(e: Expect, s: seq<byte>, n: nat)
    requires n <= |s| && Consume(e, s[..n]) == Failed
    ensures Consume(e, s) == Failed
  {
    assert s == s[..n] + s[n..];
    ConsumeConcat(e, s[..n], s[n..]);
    FailedForever(s[n..]);
  }

  /** How many bytes are taken in before one fails. */
  function Survived(e: Expect, s: seq<byte>): (n: nat)
    ensures n <= |s|
  {
    if s == [] then 0
    else if Consume(e, s) != Failed then |s|
    else Survived(e, s[..|s| - 1])
  }

  /** A prefix has not failed exactly when it is no longer than that. */
  lemma {:induction false} SurvivedIff(e: Expect, s: seq<byte>, n: nat)
    requires e != Failed && n <= |s|
    ensures Consume(e, s[..n]) != Failed <==> n <= Survived(e, s)
  {
    hide Next;
    assert s[..|s|] == s;
    if Consume(e, s) != Failed {
      if Consume(e, s[..n]) == Failed {
        FailedPrefix(e, s, n);
      }
    } else if n < |s| {
      assert s[..|s| - 1][..n] == s[..n];
      SurvivedIff(e, s[..|s| - 1], n);
    }
  }

  predicate Matches(tail: seq<Range>, s: seq<byte>) {
    |s| == |tail| && forall i :: 0 <= i < |s| ==> tail[i].Has(s[i])
  }

  /** A character is its lead byte followed by the bytes the lead byte calls for. */
  lemma CharByLead(c: seq<byte>)
    requires c != []
    ensures IsChar(c) <==> Lead(c[0]).Awaiting? && Matches(Lead(c[0]).tail, c[1..])
  {
    if Lead(c[0]).Awaiting? {
      var tail := Lead(c[0]).tail;
      assert |tail| <= 3;
      assert forall i :: 0 <= i < |c| - 1 ==> c[1..][i] == c[i + 1];
      if |c| == 1 + |tail| {
        assert |c| == 2 ==> (Matches(tail, c[1..]) <==> tail[0].Has(c[1]));
        assert |c| == 3 ==> (Matches(tail, c[1..]) <==> tail[0].Has(c[1]) && tail[1].Has(c[2]));
        assert |c| == 4 ==> (Matches(tail, c[1..]) <==> tail[0].Has(c[1]) && tail[1].Has(c[2]) && tail[2].Has(c[3]));
      }
    }
  }

  /** A non-empty string is well formed exactly when its first lead byte's character is complete and the rest is
      well formed. */
  lemma WellFormedByLead(s: seq<byte>)
    requires s != []
    ensures WellFormed(s) <==>
            && Lead(s[0]).Awaiting?
            && var n := 1 + |Lead(s[0]).tail|;
               n <= |s| && Matches(Lead(s[0]).tail, s[1..n]) && WellFormed(s[n..])
  {
    forall n: nat | 0 < n <= |s|
      ensures IsChar(s[..n]) <==> Lead(s[0]).Awaiting? && Matches(Lead(s[0]).tail, s[1..n])
    {
      CharByLead(s[..n]);
      assert s[..n][1..] == s[1..n];
    }
  }

  /** What completes a pending character: the missing bytes, then a well-formed string. */
  ghost predicate Completes(tail: seq<Range>, s: seq<byte>) {
    |tail| <= |s| && Matches(tail, s[..|tail|]) && WellFormed(s[|tail|..])
  }

  lemma CompletesLead(s: seq<byte>)
    requires s != []
    ensures Completes([], s) <==> Lead(s[0]).Awaiting? && Completes(Lead(s[0]).tail, s[1..])
  {
    assert s[0..] == s;
    WellFormedByLead(s);
    if Lead(s[0]).Awaiting? && 1 + |Lead(s[0]).tail| <= |s| {
      var n := |Lead(s[0]).tail|;
      assert s[1..][..n] == s[1..1 + n];
      assert s[1..][n..] == s[1 + n..];
    }
  }

  lemma CompletesTail(tail: seq<Range>, s: seq<byte>)
    requires tail != [] && s != []
    ensures Completes(tail, s) <==> tail[0].Has(s[0]) && Completes(tail[1..], s[1..])
  {
    var n := |tail|;
    if n <= |s| {
      assert s[1..][n - 1..] == s[n..];
      var rest := s[1..][..n - 1];
      assert forall i :: 0 < i < n ==> s[..n][i] == rest[i - 1] && tail[i] == tail[1..][i - 1];
      assert forall i :: 0 <= i < |rest| ==> rest[i] == s[..n][i + 1];
    }
  }

  lemma {:induction false} CompleteFrom(tail: seq<Range>, s: seq<byte>)
    ensures Consume(Awaiting(tail), s) == START <==> Completes(tail, s)
    decreases |s|
  {
    if s == [] {
    } else {
      hide Completes, Consume, Lead;
      ConsumeFirst(Awaiting(tail), s);
      if tail == [] {
        CompletesLead(s);
      } else {
        CompletesTail(tail, s);
      }
      match Next(Awaiting(tail), s[0]) {
        case Failed => FailedForever(s[1..]);
        case Awaiting(t) => CompleteFrom(t, s[1..]);
      }
    }
  }

  /** The automaton rests between characters exactly on the well-formed strings. */
  lemma CompleteIffWellFormed(s: seq<byte>)
    ensures Consume(START, s) == START <==> WellFormed(s)
  {
    CompleteFrom([], s);
    assert s[0..] == s;
  }

  ghost predicate Satisfiable(e: Expect) {
    e.Awaiting? ==> forall i :: 0 <= i < |e.tail| ==> e.tail[i].lo <= e.tail[i].hi
  }

  lemma NextSatisfiable(e: Expect, b: byte)
    requires Satisfiable(e)
    ensures Satisfiable(Next(e, b))
  {}

  lemma {:induction false} ReachableSatisfiable(s: seq<byte>)
    ensures Satisfiable(Consume(START, s))
  {
    if s != [] {
      ReachableSatisfiable(s[..|s| - 1]);
      NextSatisfiable(Consume(START, s[..|s| - 1]), s[|s| - 1]);
    } else {
      assert Satisfiable(START);
    }
  }

  /** The automaton has not failed exactly on the prefixes of well-formed strings. */
  lemma NotFailedIffExtendable(s: seq<byte>)
    ensures Consume(START, s) != Failed <==> Extendable(s)
  {
    var e := Consume(START, s);
    if e.Awaiting? {
      ReachableSatisfiable(s);
      var t := seq(|e.tail|, i requires 0 <= i < |e.tail| => e.tail[i].lo);
      assert t[..|e.tail|] == t && t[|e.tail|..] == [];
      CompleteFrom(e.tail, t);
      ConsumeConcat(START, s, t);
      CompleteIffWellFormed(s + t);
      assert WellFormed(s + t);
    }
    if Extendable(s) {
      var t :| WellFormed(s + t);
      CompleteIffWellFormed(s + t);
      ConsumeConcat(START, s, t);
      FailedForever(t);
    }
  }

  // ---------------------------------------------------------------------------
  // The incremental checker
  // ---------------------------------------------------------------------------

  type int8 = n: int | -128 <= n < 128

  class Byte {
    var length: uint8
    var it: int8
    // The first byte of a three or four byte character; meaningless otherwise.
    var previousByte: byte

    /** Every state the checker is in when it is stopped at the first failure. */
    ghost predicate Valid()
      reads this
    {
      || it == -1
      || it == 0
      || (length == 2 && it == 1)
      || (length == 3 && it == 2 && 0xE0 <= previousByte <= 0xEF)
      || (length == 3 && it == 1)
      || (length == 4 && it == 3 && 0xF0 <= previousByte <= 0xF4)
      || (length == 4 && 1 <= it <= 2)
    }

    /** The bytes still missing; `it` counts them. */
    ghost function Expecting(): (e: Expect)
      reads this
      ensures Valid() && it >= 0 ==> e.Awaiting? && |e.tail| == it
    {
      if it < 0 then Failed
      else if length == 3 && it == 2 then Lead(previousByte)
      else if length == 4 && it == 3 then Lead(previousByte)
      else Awaiting(seq(it, _ => TAIL))
    }

    constructor ()
      ensures Valid() && Expecting() == START
    {
      length, it := 0, 0;
      previousByte := *;
    }

    /** Copy assignment from a newly constructed checker. */
    method Reset()
      modifies this
      ensures Valid() && Expecting() == START
    {
      length, it := 0, 0;
      previousByte := *;
    }

    /** Nothing has failed. */
    predicate Ok()
      reads this
      ensures Valid() ==> (Ok() <==> Expecting() != Failed)
    {
      it >= 0
    }

    /** Between two characters. */
    predicate Complete()
      reads this
      ensures Valid() ==> (Complete() <==> Expecting() == START)
    {
      it == 0
    }

    lemma TailTest(b: byte)
      ensures (b & 0xC0) == 0x80 <==> IsTail(b)
    {}

    method SetLength(b: byte) returns (ok: bool)
      requires Expecting() == START
      modifies this
      ensures Valid() && Expecting() == Lead(b)
      ensures ok <==> it >= 0
    {
      if (b & 0x80) == 0x00 {
        length, it := 1, 0;
        return true;
      }
      if (b & 0xE0) == 0xC0 {
        if b == 0xC1 || b == 0xC0 {
          it := -1;
          return false;
        }
        length, it := 2, 1;
        return true;
      }
      if (b & 0xF0) == 0xE0 {
        length, it, previousByte := 3, 2, b;
        return true;
      }
      if (b & 0xF8) == 0xF0 {
        if b > 0xF4 {
          it := -1;
          return false;
        }
        length, it, previousByte := 4, 3, b;
        return true;
      }
      if (b & 0xC0) == 0x80 {
        it := -1;
        return false;
      }
      it := -1;
      return false;
    }

    lemma NoTail(b: byte)
      requires Valid() && it > 0 && !IsTail(b)
      ensures Next(Expecting(), b) == Failed
    {}

    /** The second byte of a longer character is outside the range that the first byte leaves. */
    predicate Barred(b: byte)
      reads this
    {
      || (length == 3 && it == 2 && ((previousByte == 0xE0 && b <= 0x9F) || (previousByte == 0xED && b >= 0xA0)))
      || (length == 4 && it == 3 && ((previousByte == 0xF0 && b <= 0x8F) || (previousByte == 0xF4 && b >= 0x90)))
    }

    /** The second byte of a three or four byte character comes from the range that its first byte leaves. */
    lemma SecondByte(b: byte)
      requires Valid() && ((length == 3 && it == 2) || (length == 4 && it == 3)) && IsTail(b)
      ensures Next(Expecting(), b) == if Barred(b) then Failed else Awaiting(seq(it - 1, _ => TAIL))
    {}

    /** One byte.  As long as no byte has failed, the checker follows the grammar.  Driven past a failure it
        accepts continuation bytes again, counting further down and around. */
    method Validate(b: byte) returns (ok: bool)
      modifies this
      ensures old(Valid() && Ok()) ==> Valid() && ok == Ok() && Expecting() == Next(old(Expecting()), b)
      ensures old(it) != 0 ==>
                && (ok <==> IsTail(b) && !old(Barred(b)))
                && it == if !ok then -1 else if old(it) == -128 then 127 else old(it) - 1
    {
      TailTest(b);
      hide IsTail, Lead;
      if it == 0 {
        ok := SetLength(b);
        return;
      }
      if (b & 0xC0) != 0x80 {
        if Valid() && it > 0 {
          NoTail(b);
        }
        it := -1;
        return false;
      }
      if Valid() && ((length == 3 && it == 2) || (length == 4 && it == 3)) {
        SecondByte(b);
      }
      if length == 4 && it == 3 && previousByte == 0xF0 && b <= 0x8F {
        it := -1;
        return false;
      }
      if length == 3 && it == 2 && previousByte == 0xE0 && b <= 0x9F {
        it := -1;
        return false;
      }
      if length == 4 && it == 3 && previousByte == 0xF4 && b >= 0x90 {
        it := -1;
        return false;
      }
      if length == 3 && it == 2 && previousByte == 0xED && b >= 0xA0 {
        it := -1;
        return false;
      }
      it := if it == -128 then 127 else it - 1;
      return true;
    }
  }
}
