/** Bytes, masking keys and the per-byte masking rule of section 5.3 of RFC 6455. */
module Bytes {
  import opened Sequences

  type byte = bv8

  /** A `uint8_t` that only counts. */
  type uint8 = n: nat | n < 256

  const U64: nat := 0x1_0000_0000_0000_0000

  type uint64 = n: nat | n < U64

  /** A masking key: four bytes. */
  type Key = k: seq<byte> | |k| == 4 witness [0, 0, 0, 0]

  const ZERO_KEY: Key := [0, 0, 0, 0]

  /** `n` key bytes in the order they are used, octet `k` first. */
  function KeyStream(key: Key, k: nat, n: nat): (r: seq<byte>)
    ensures |r| == n
  {
    if n == 0 then [] else KeyStream(key, k, n - 1) + [key[(k + n - 1) % 4]]
  }

  function XorAll(s: seq<byte>, t: seq<byte>): (r: seq<byte>)
    requires |s| == |t|
    ensures |r| == |s|
  {
    if s == [] then [] else XorAll(s[..|s| - 1], t[..|s| - 1]) + [s[|s| - 1] ^ t[|s| - 1]]
  }

  /** Masks or unmasks `s`, which starts at octet `k` of the masked data. */
  function Unmask(s: seq<byte>, key: Key, k: nat): (r: seq<byte>)
    ensures |r| == |s|
  {
    XorAll(s, KeyStream(key, k, |s|))
  }

  lemma {:induction false} KeyStreamAt(key: Key, k: nat, n: nat, i: nat)
    requires i < n
    ensures KeyStream(key, k, n)[i] == key[(k + i) % 4]
  {
    if i == n - 1 {
    } else {
      KeyStreamAt(key, k, n - 1, i);
    }
  }

  lemma {:induction false} XorAllAt(s: seq<byte>, t: seq<byte>, i: nat)
    requires i < |s| == |t|
    ensures XorAll(s, t)[i] == s[i] ^ t[i]
  {
    if i == |s| - 1 {
    } else {
      XorAllAt(s[..|s| - 1], t[..|s| - 1], i);
    }
  }

  /** The rule of section 5.3: octet `i` of the data is combined with octet `i modulo 4` of the key. */
  lemma UnmaskAt(s: seq<byte>, key: Key, k: nat, i: nat)
    requires i < |s|
    ensures Unmask(s, key, k)[i] == s[i] ^ key[(k + i) % 4]
  {
    XorAllAt(s, KeyStream(key, k, |s|), i);
    KeyStreamAt(key, k, |s|, i);
  }

  lemma XorAllMore(s: seq<byte>, t: seq<byte>, a: byte, b: byte)
    requires |s| == |t|
    ensures XorAll(s + [a], t + [b]) == XorAll(s, t) + [a ^ b]
  {
    assert (s + [a])[..|s|] == s && (t + [b])[..|t|] == t;
  }

  lemma XorTwice(a: byte, b: byte)
    ensures (a ^ b) ^ b == a
  {}

  lemma {:induction false} XorAllTwice(s: seq<byte>, t: seq<byte>)
    requires |s| == |t|
    ensures XorAll(XorAll(s, t), t) == s
  {
    hide XorAll;
    if s == [] {
      assert XorAll(XorAll(s, t), t) == [];
    } else {
      var n := |s| - 1;
      var front, key, a, b := s[..n], t[..n], s[n], t[n];
      assert s == front + [a] && t == key + [b];
      XorAllTwice(front, key);
      XorAllMore(front, key, a, b);
      XorAllMore(XorAll(front, key), key, a ^ b, b);
      XorTwice(a, b);
    }
  }

  /** Masking twice with one key and one starting offset gives the data back. */
  lemma UnmaskTwice(s: seq<byte>, key: Key, k: nat)
    ensures Unmask(Unmask(s, key, k), key, k) == s
  {
    XorAllTwice(s, KeyStream(key, k, |s|));
  }

  lemma SameOctet(k: nat, l: nat, n: nat)
    requires k % 4 == l % 4
    ensures (k + n) % 4 == (l + n) % 4
  {}

  lemma {:induction false} KeyStreamOffset(key: Key, k: nat, l: nat, n: nat)
    requires k % 4 == l % 4
    ensures KeyStream(key, k, n) == KeyStream(key, l, n)
  {
    if n == 0 {
    } else {
      KeyStreamOffset(key, k, l, n - 1);
      SameOctet(k, l, n - 1);
    }
  }

  /** Only the offset modulo 4 matters. */
  lemma UnmaskOffset(s: seq<byte>, key: Key, k: nat, l: nat)
    requires k % 4 == l % 4
    ensures Unmask(s, key, k) == Unmask(s, key, l)
  {
    KeyStreamOffset(key, k, l, |s|);
  }

  /** The all-zero key leaves the data as it is, at every offset. */
  lemma {:induction false} UnmaskZero(s: seq<byte>, k: nat)
    ensures Unmask(s, ZERO_KEY, k) == s
  {
    if s == [] {
    } else {
      var n := |s| - 1;
      UnmaskZero(s[..n], k);
      assert ZERO_KEY[(k + n) % 4] == 0;
      assert s == s[..n] + [s[n]];
    }
  }

  lemma {:induction false} XorAllConcat(s: seq<byte>, s': seq<byte>, t: seq<byte>, t': seq<byte>)
    requires |s| == |t| && |s'| == |t'|
    ensures XorAll(s + s', t + t') == XorAll(s, t) + XorAll(s', t')
  {
    hide XorAll;
    if s' == [] {
      assert s + s' == s && t + t' == t && XorAll(s', t') == [];
    } else {
      var n := |s'| - 1;
      var front, key, a, b := s'[..n], t'[..n], s'[n], t'[n];
      assert s' == front + [a] && t' == key + [b];
      XorAllConcat(s, front, t, key);
      XorAllMore(front, key, a, b);
      XorAllMore(s + front, t + key, a, b);
      Associative(s, front, [a]);
      Associative(t, key, [b]);
      Associative(XorAll(s, t), XorAll(front, key), [a ^ b]);
    }
  }

  lemma {:induction false} KeyStreamConcat(key: Key, k: nat, m: nat, n: nat)
    ensures KeyStream(key, k, m + n) == KeyStream(key, k, m) + KeyStream(key, k + m, n)
  {
    if n == 0 {
    } else {
      KeyStreamConcat(key, k, m, n - 1);
      assert k + (m + n) - 1 == (k + m) + n - 1;
    }
  }

  /** Unmasking in two pieces is unmasking in one pass, the offset carried across. */
  lemma UnmaskConcat(s: seq<byte>, t: seq<byte>, key: Key, k: nat)
    ensures Unmask(s + t, key, k) == Unmask(s, key, k) + Unmask(t, key, k + |s|)
  {
    hide KeyStream, XorAll;
    KeyStreamConcat(key, k, |s|, |t|);
    XorAllConcat(s, t, KeyStream(key, k, |s|), KeyStream(key, k + |s|, |t|));
  }
}
