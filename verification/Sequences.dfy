/** Facts about concatenating and slicing sequences of any type. */
module Sequences {

  lemma Associative<T>(a: seq<T>, b: seq<T>, c: seq<T>)
    ensures (a + b) + c == a + (b + c)
  {}

  lemma Units<T>(s: seq<T>)
    ensures [] + s == s && s + [] == s
  {}

  /** A concatenation falls apart again. */
  lemma Cut<T>(s: seq<T>, a: seq<T>, b: seq<T>)
    requires s == a + b
    ensures s[..|a|] == a && s[|a|..] == b && s[|a|..|a| + |b|] == b
  {}

  lemma FirstThree<T>(s: seq<T>)
    ensures |s| == 2 ==> s == [s[0], s[1]]
    ensures |s| >= 3 ==> s[..3] == [s[0], s[1], s[2]]
  {}

  lemma Adjacent<T>(s: seq<T>, i: nat, j: nat, k: nat)
    requires i <= j <= k <= |s|
    ensures s[i..k] == s[i..j] + s[j..k]
  {}

  lemma Within<T>(s: seq<T>, i: nat, n: nat, m: nat)
    requires i + n + m <= |s|
    ensures s[i..][n..n + m] == s[i + n..i + n + m]
  {}

  lemma Stretch<T>(s: seq<T>, i: nat, n: nat)
    requires i + n <= |s|
    ensures s[i..][..n] == s[i..i + n]
  {}

  lemma TakeMore<T>(s: seq<T>, n: nat, m: nat)
    requires n + m <= |s|
    ensures s[..n + m] == s[..n] + s[n..n + m]
  {}

  lemma Front<T>(s: seq<T>, n: nat, k: nat)
    requires n + k <= |s|
    ensures s == s[..n] + s[n..] && s[..n + k] == s[..n] + s[n..][..k]
  {}

  lemma SameFront<T>(a: seq<T>, b: seq<T>, c: seq<T>)
    requires a + c == b + c
    ensures a == b
  {
    Cut(a + c, a, c);
    Cut(b + c, b, c);
  }

  lemma SameLengths<T>(a: seq<T>, b: seq<T>, c: seq<T>, d: seq<T>)
    requires a + c == b + d && |c| == |d|
    ensures a == b
  {
    Cut(a + c, a, c);
    Cut(b + d, b, d);
  }
}
