/** The grammar of UTF-8 against the encoding it describes: Unicode scalar values as one to four bytes, as in section 3
    of RFC 3629. */
module Scalars {
  import opened Arithmetic
  import opened Bytes
  import opened NetworkOrder
  import opened Sequences
  import opened Utf8

  /** A character number that is not a surrogate. */
  predicate IsScalar(u: nat) { u <= 0xD7FF || 0xE000 <= u <= 0x10FFFF }

  /** Its bits, spread over one to four bytes. */
  function Spread(u: nat): (s: seq<nat>)
    requires IsScalar(u)
    ensures forall i :: 0 <= i < |s| ==> s[i] < 256
  {
    if u < 0x80 then [u]
    else if u < 0x800 then [0xC0 + u / 64, 0x80 + u % 64]
    else if u < 0x1_0000 then [0xE0 + u / 4096, 0x80 + u / 64 % 64, 0x80 + u % 64]
    else [0xF0 + u / 0x4_0000, 0x80 + u / 4096 % 64, 0x80 + u / 64 % 64, 0x80 + u % 64]
  }

  /** The UTF-8 encoding of one character. */
  function EncodeScalar(u: nat): (c: seq<byte>)
    requires IsScalar(u)
    ensures |c| == |Spread(u)| > 0
  {
    seq(|Spread(u)|, i requires 0 <= i < |Spread(u)| => ByteOf(Spread(u)[i]))
  }

  /** The UTF-8 encoding of a text. */
  function EncodeText(us: seq<nat>): seq<byte>
    requires forall u :: u in us ==> IsScalar(u)
  {
    if us == [] then [] else EncodeScalar(us[0]) + EncodeText(us[1..])
  }

  function Numbers(c: seq<byte>): (s: seq<nat>)
    ensures |s| == |c|
  {
    if c == [] then []
    else
      ByteOfValue(c[|c| - 1]);
      Numbers(c[..|c| - 1]) + [c[|c| - 1] as int]
  }

  lemma {:induction false} NumbersAt(c: seq<byte>, i: nat)
    requires i < |c|
    ensures Numbers(c)[i] == c[i] as int
  {
    if i < |c| - 1 {
      NumbersAt(c[..|c| - 1], i);
    }
  }

  /** A character is encoded by the bytes with these numbers. */
  lemma SpreadIs(c: seq<byte>, u: nat)
    requires IsScalar(u)
    ensures c == EncodeScalar(u) <==> Numbers(c) == Spread(u)
  {
    hide Spread, ByteOf, Numbers;
    forall i | 0 <= i < |c|
      ensures Numbers(c)[i] == c[i] as int && ByteOf(c[i] as int) == c[i]
    {
      NumbersAt(c, i);
      ByteOfValue(c[i]);
    }
    forall i | 0 <= i < |Spread(u)|
      ensures ByteOf(Spread(u)[i]) as int == Spread(u)[i]
    {
      ByteValue(Spread(u)[i]);
    }
    if Numbers(c) == Spread(u) {
      assert forall i :: 0 <= i < |c| ==> EncodeScalar(u)[i] == c[i];
    }
    if c == EncodeScalar(u) {
      assert forall i :: 0 <= i < |c| ==> Numbers(c)[i] == Spread(u)[i];
    }
  }

  /** The nonterminal UTF8-char, on numbers. */
  predicate CharNumbers(s: seq<nat>) {
    || (|s| == 1 && s[0] <= 0x7F)
    || (|s| == 2 && 0xC2 <= s[0] <= 0xDF && 0x80 <= s[1] <= 0xBF)
    || (|s| == 3 && 0x80 <= s[2] <= 0xBF &&
        (|| (s[0] == 0xE0 && 0xA0 <= s[1] <= 0xBF)
         || (0xE1 <= s[0] <= 0xEC && 0x80 <= s[1] <= 0xBF)
         || (s[0] == 0xED && 0x80 <= s[1] <= 0x9F)
         || (0xEE <= s[0] <= 0xEF && 0x80 <= s[1] <= 0xBF)))
    || (|s| == 4 && 0x80 <= s[2] <= 0xBF && 0x80 <= s[3] <= 0xBF &&
        (|| (s[0] == 0xF0 && 0x90 <= s[1] <= 0xBF)
         || (0xF1 <= s[0] <= 0xF3 && 0x80 <= s[1] <= 0xBF)
         || (s[0] == 0xF4 && 0x80 <= s[1] <= 0x8F)))
  }

  /** The bounds in the grammar, as numbers. */
  lemma Bounds(b: byte)
    ensures 0 <= b as int < 256
    ensures b <= 0x7F <==> b as int <= 0x7F
    ensures IsTail(b) <==> 0x80 <= b as int <= 0xBF
    ensures 0xC2 <= b <= 0xDF <==> 0xC2 <= b as int <= 0xDF
    ensures b == 0xE0 <==> b as int == 0xE0
    ensures 0xE1 <= b <= 0xEC <==> 0xE1 <= b as int <= 0xEC
    ensures b == 0xED <==> b as int == 0xED
    ensures 0xEE <= b <= 0xEF <==> 0xEE <= b as int <= 0xEF
    ensures b == 0xF0 <==> b as int == 0xF0
    ensures 0xF1 <= b <= 0xF3 <==> 0xF1 <= b as int <= 0xF3
    ensures b == 0xF4 <==> b as int == 0xF4
    ensures 0xA0 <= b <= 0xBF <==> 0xA0 <= b as int <= 0xBF
    ensures 0x80 <= b <= 0x9F <==> 0x80 <= b as int <= 0x9F
    ensures 0x90 <= b <= 0xBF <==> 0x90 <= b as int <= 0xBF
    ensures 0x80 <= b <= 0x8F <==> 0x80 <= b as int <= 0x8F
  {}

  lemma CharOnNumbers(c: seq<byte>)
    ensures IsChar(c) <==> CharNumbers(Numbers(c))
  {
    hide Numbers, IsTail;
    if 0 < |c| <= 4 {
      NumbersAt(c, 0);
      Bounds(c[0]);
      if |c| > 1 {
        NumbersAt(c, 1);
        Bounds(c[1]);
      }
      if |c| > 2 {
        NumbersAt(c, 2);
        Bounds(c[2]);
      }
      if |c| > 3 {
        NumbersAt(c, 3);
        Bounds(c[3]);
      }
    }
  }

  lemma SpreadIsChar(u: nat)
    requires IsScalar(u)
    ensures CharNumbers(Spread(u))
  {}

  /** Four digits to base 64. */
  function Digits(a: nat, b: nat, c: nat, d: nat): nat {
    ((a * 64 + b) * 64 + c) * 64 + d
  }

  lemma DigitsOf(a: nat, b: nat, c: nat, d: nat)
    requires b < 64 && c < 64 && d < 64
    ensures var u := Digits(a, b, c, d);
            && u % 64 == d && u / 64 % 64 == c && u / 4096 % 64 == b && u / 0x4_0000 == a
            && u / 64 == (a * 64 + b) * 64 + c && u / 4096 == a * 64 + b
  {
    var u := Digits(a, b, c, d);
    Quotient(u, 64, (a * 64 + b) * 64 + c, d);
    Quotient((a * 64 + b) * 64 + c, 64, a * 64 + b, c);
    Quotient(u, 4096, a * 64 + b, c * 64 + d);
    Quotient(a * 64 + b, 64, a, b);
    Quotient(u, 0x4_0000, a, (b * 64 + c) * 64 + d);
  }

  lemma DigitsBack(u: nat)
    ensures Digits(u / 0x4_0000, u / 4096 % 64, u / 64 % 64, u % 64) == u
    ensures Digits(0, u / 4096, u / 64 % 64, u % 64) == u && Digits(0, 0, u / 64, u % 64) == u
  {
    Divide(u, 64);
    Divide(u / 64, 64);
    Divide(u / 64 / 64, 64);
    assert u / 64 / 64 == u / 4096;
    assert u / 4096 / 64 == u / 0x4_0000;
  }

  /** The character with these numbers. */
  function Gathered(s: seq<nat>): nat
    requires CharNumbers(s)
  {
    if |s| == 1 then s[0]
    else if |s| == 2 then Digits(0, 0, s[0] - 0xC0, s[1] - 0x80)
    else if |s| == 3 then Digits(0, s[0] - 0xE0, s[1] - 0x80, s[2] - 0x80)
    else Digits(s[0] - 0xF0, s[1] - 0x80, s[2] - 0x80, s[3] - 0x80)
  }

  lemma GatheredTwo(s: seq<nat>)
    requires CharNumbers(s) && |s| == 2
    ensures IsScalar(Gathered(s)) && Spread(Gathered(s)) == s
  {
    DigitsOf(0, 0, s[0] - 0xC0, s[1] - 0x80);
  }

  lemma GatheredThree(s: seq<nat>)
    requires CharNumbers(s) && |s| == 3
    ensures IsScalar(Gathered(s)) && Spread(Gathered(s)) == s
  {
    DigitsOf(0, s[0] - 0xE0, s[1] - 0x80, s[2] - 0x80);
  }

  lemma GatheredFour(s: seq<nat>)
    requires CharNumbers(s) && |s| == 4
    ensures IsScalar(Gathered(s)) && Spread(Gathered(s)) == s
  {
    DigitsOf(s[0] - 0xF0, s[1] - 0x80, s[2] - 0x80, s[3] - 0x80);
  }

  lemma GatheredIsScalar(s: seq<nat>)
    requires CharNumbers(s)
    ensures IsScalar(Gathered(s)) && Spread(Gathered(s)) == s
  {
    hide Digits;
    if |s| == 2 {
      GatheredTwo(s);
    } else if |s| == 3 {
      GatheredThree(s);
    } else if |s| == 4 {
      GatheredFour(s);
    }
  }

  lemma GatheredSpread(u: nat)
    requires IsScalar(u)
    ensures CharNumbers(Spread(u)) && Gathered(Spread(u)) == u
  {
    SpreadIsChar(u);
    DigitsBack(u);
    hide Digits;
  }

  /** The grammar's characters are the encodings of the Unicode scalar values. */
  lemma CharIff(c: seq<byte>)
    ensures IsChar(c) <==> exists u: nat :: IsScalar(u) && c == EncodeScalar(u)
  {
    hide IsChar, CharNumbers, Spread, EncodeScalar, Numbers;
    CharOnNumbers(c);
    if IsChar(c) {
      GatheredIsScalar(Numbers(c));
      SpreadIs(c, Gathered(Numbers(c)));
    }
    if u: nat :| IsScalar(u) && c == EncodeScalar(u) {
      SpreadIs(c, u);
      SpreadIsChar(u);
    }
  }

  /** No two of them have the same encoding. */
  lemma SameScalar(u: nat, v: nat)
    requires IsScalar(u) && IsScalar(v) && EncodeScalar(u) == EncodeScalar(v)
    ensures u == v
  {
    hide *;
    SpreadIs(EncodeScalar(u), u);
    SpreadIs(EncodeScalar(u), v);
    GatheredSpread(u);
    GatheredSpread(v);
  }

  lemma EncodeFirst(u: nat, us: seq<nat>)
    requires IsScalar(u) && forall v :: v in us ==> IsScalar(v)
    ensures EncodeText([u] + us) == EncodeScalar(u) + EncodeText(us)
  {
    assert ([u] + us)[1..] == us;
  }

  lemma {:induction false} TextOfScalars(s: seq<byte>) returns (us: seq<nat>)
    requires WellFormed(s)
    ensures (forall u :: u in us ==> IsScalar(u)) && s == EncodeText(us)
    decreases |s|
  {
    hide IsChar, IsScalar, EncodeScalar;
    if s == [] {
      us := [];
    } else {
      var n: nat :| 0 < n <= |s| && IsChar(s[..n]) && WellFormed(s[n..]);
      CharIff(s[..n]);
      var u: nat :| IsScalar(u) && s[..n] == EncodeScalar(u);
      var more := TextOfScalars(s[n..]);
      us := [u] + more;
      EncodeFirst(u, more);
      assert s == s[..n] + s[n..];
    }
  }

  lemma {:induction false} ScalarsWellFormed(us: seq<nat>)
    requires forall u :: u in us ==> IsScalar(u)
    ensures WellFormed(EncodeText(us))
  {
    hide IsChar, IsScalar, EncodeScalar;
    if us != [] {
      var c, rest := EncodeScalar(us[0]), EncodeText(us[1..]);
      ScalarsWellFormed(us[1..]);
      CharIff(c);
      var s := c + rest;
      Cut(s, c, rest);
      assert IsChar(s[..|c|]) && WellFormed(s[|c|..]);
    }
  }

  /** The well-formed strings are exactly the encodings of sequences of Unicode scalar values. */
  lemma WellFormedIff(s: seq<byte>)
    ensures WellFormed(s) <==>
            exists us: seq<nat> :: (forall u :: u in us ==> IsScalar(u)) && s == EncodeText(us)
  {
    hide WellFormed, EncodeText, IsScalar;
    if WellFormed(s) {
      var us := TextOfScalars(s);
    }
    if us: seq<nat> :| (forall u :: u in us ==> IsScalar(u)) && s == EncodeText(us) {
      ScalarsWellFormed(us);
    }
  }
}
