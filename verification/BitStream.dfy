/** Numbers as groups of bits, most significant bit first. */
module BitStream {
  import opened Arithmetic
  import opened Sequences

  function Power2(n: nat): (p: nat)
    ensures p > 0
  {
    if n == 0 then 1 else 2 * Power2(n - 1)
  }

  /** `v` shifted right by `n` places. */
  function ShiftRight(v: nat, n: nat): nat {
    if n == 0 then v else ShiftRight(v / 2, n - 1)
  }

  /** The lowest `n` bits of `v`. */
  function BitsOf(v: nat, n: nat): (bits: seq<bool>)
    ensures |bits| == n
  {
    if n == 0 then [] else BitsOf(v / 2, n - 1) + [v % 2 == 1]
  }

  function Value(bits: seq<bool>): (v: nat) {
    if bits == [] then 0 else 2 * Value(bits[..|bits| - 1]) + if bits[|bits| - 1] then 1 else 0
  }

  lemma {:induction false} ValueOfBits(v: nat, n: nat)
    requires v < Power2(n)
    ensures Value(BitsOf(v, n)) == v
  {
    if n == 0 {
    } else {
      ValueOfBits(v / 2, n - 1);
      assert BitsOf(v, n)[..n - 1] == BitsOf(v / 2, n - 1);
    }
  }

  lemma {:induction false} BitsOfValue(bits: seq<bool>)
    ensures Value(bits) < Power2(|bits|) && BitsOf(Value(bits), |bits|) == bits
  {
    if bits == [] {
    } else {
      BitsOfValue(bits[..|bits| - 1]);
      assert bits == bits[..|bits| - 1] + [bits[|bits| - 1]];
    }
  }

  /** The upper bits, then the lower ones. */
  lemma {:induction false} BitsSplit(v: nat, p: nat, q: nat)
    ensures BitsOf(v, p + q) == BitsOf(ShiftRight(v, q), p) + BitsOf(v, q)
  {
    if q == 0 {
    } else {
      BitsSplit(v / 2, p, q - 1);
    }
  }

  lemma HalfMod(v: nat, p: nat)
    requires p > 0
    ensures (v % (2 * p)) / 2 == (v / 2) % p && (v % (2 * p)) % 2 == v % 2
  {
    var k, r := v / (2 * p), v % (2 * p);
    assert v == k * (2 * p) + r;
    assert k * (2 * p) == 2 * (k * p);
    assert v / 2 == k * p + r / 2;
    Quotient(v / 2, p, k, r / 2);
  }

  /** Only the value modulo a power of two shows in the bits below. */
  lemma {:induction false} BitsWrap(v: nat, n: nat, m: nat)
    requires n <= m
    ensures BitsOf(v % Power2(m), n) == BitsOf(v, n)
  {
    if n == 0 {
    } else {
      HalfMod(v, Power2(m - 1));
      BitsWrap(v / 2, n - 1, m - 1);
    }
  }

  /** A number below `Power2(n)` in the place of the lowest `n` bits. */
  lemma {:induction false} Pushed(v: nat, w: nat, n: nat)
    requires w < Power2(n)
    ensures ShiftRight(v * Power2(n) + w, n) == v
    ensures BitsOf(v * Power2(n) + w, n) == BitsOf(w, n)
  {
    if n == 0 {
    } else {
      var p := v * Power2(n - 1);
      assert v * Power2(n) == 2 * p;
      Pushed(v, w / 2, n - 1);
      assert (2 * p + w) / 2 == p + w / 2 && (2 * p + w) % 2 == w % 2;
    }
  }

  /** Pushing `n` bits into an accumulator of `width` bits keeps the `m` bits that are waiting in it. */
  lemma PushBits(v: nat, w: nat, n: nat, m: nat, width: nat)
    requires w < Power2(n) && m + n <= width
    ensures BitsOf((v * Power2(n) + w) % Power2(width), m + n) == BitsOf(v, m) + BitsOf(w, n)
  {
    hide BitsOf, ShiftRight, Power2;
    BitsWrap(v * Power2(n) + w, m + n, width);
    BitsSplit(v * Power2(n) + w, m, n);
    Pushed(v, w, n);
  }

  /** Taking the upper `n` of `n + m` bits leaves the lower `m`. */
  lemma TakeBits(v: nat, n: nat, m: nat)
    ensures BitsOf(v, n + m) == BitsOf(ShiftRight(v, m) % Power2(n), n) + BitsOf(v, m)
  {
    BitsSplit(v, n, m);
    BitsWrap(ShiftRight(v, m), n, n);
  }

  // ---------------------------------------------------------------------------

  /** The groups one after the other. */
  function Flatten(groups: seq<nat>, n: nat): (bits: seq<bool>)
    ensures |bits| == |groups| * n
  {
    if groups == [] then []
    else
      assert |groups| * n == (|groups| - 1) * n + n;
      Flatten(groups[..|groups| - 1], n) + BitsOf(groups[|groups| - 1], n)
  }

  lemma FlattenMore(groups: seq<nat>, v: nat, n: nat)
    ensures Flatten(groups + [v], n) == Flatten(groups, n) + BitsOf(v, n)
  {
    assert (groups + [v])[..|groups|] == groups;
  }

  lemma {:induction false} FlattenConcat(a: seq<nat>, b: seq<nat>, n: nat)
    ensures Flatten(a + b, n) == Flatten(a, n) + Flatten(b, n)
  {
    if b == [] {
      assert a + b == a;
    } else {
      var front, last := b[..|b| - 1], b[|b| - 1];
      assert a + b == (a + front) + [last] && b == front + [last];
      FlattenConcat(a, front, n);
      FlattenMore(a + front, last, n);
      FlattenMore(front, last, n);
    }
  }

  lemma FlattenFirst(v: nat, rest: seq<nat>, n: nat)
    ensures Flatten([v] + rest, n) == BitsOf(v, n) + Flatten(rest, n)
  {
    FlattenConcat([v], rest, n);
    FlattenMore([], v, n);
    assert [] + [v] == [v];
  }

  /** `n` zero bits. */
  function Zeros(n: nat): (bits: seq<bool>)
    ensures |bits| == n
  {
    seq(n, _ => false)
  }

  lemma {:induction false} ZeroBits(n: nat)
    ensures BitsOf(0, n) == Zeros(n)
  {
    if n == 0 {
    } else {
      ZeroBits(n - 1);
    }
  }

  /** The bits in groups of `n`; what is left over is filled up with zeros. */
  function Filled(bits: seq<bool>, n: nat): seq<nat>
    requires n > 0
    decreases |bits|
  {
    if bits == [] then []
    else if |bits| < n then [Value(bits + Zeros(n - |bits|))]
    else [Value(bits[..n])] + Filled(bits[n..], n)
  }

  /** The bits in groups of `n`; what is left over is dropped. */
  function Dropped(bits: seq<bool>, n: nat): seq<nat>
    requires n > 0
    decreases |bits|
  {
    if |bits| < n then [] else [Value(bits[..n])] + Dropped(bits[n..], n)
  }

  ghost predicate Fits(groups: seq<nat>, n: nat) {
    forall i :: 0 <= i < |groups| ==> groups[i] < Power2(n)
  }

  lemma OneGroup(count: nat, size: nat, n: nat)
    requires count > 0 && count * n == size < 2 * n
    ensures count == 1 && size == n
  {
    if count >= 2 {
      Monotone(2, count, n);
    }
  }

  /** Groups with `k` zeros too many, fewer than a group, are the filled groups. */
  lemma {:induction false} FilledIs(groups: seq<nat>, bits: seq<bool>, k: nat, n: nat)
    requires k < n && Fits(groups, n) && Flatten(groups, n) == bits + Zeros(k)
    ensures Filled(bits, n) == groups
    decreases |groups|
  {
    hide Flatten, BitsOf, Value, Power2, Zeros;
    if groups == [] {
      assert |bits + Zeros(k)| == 0;
    } else {
      var first, rest := groups[0], groups[1..];
      assert groups == [first] + rest;
      FlattenFirst(first, rest, n);
      ValueOfBits(first, n);
      if |bits| >= n {
        Cut(bits + Zeros(k), BitsOf(first, n), Flatten(rest, n));
        assert bits[..n] == (bits + Zeros(k))[..n];
        assert bits[n..] + Zeros(k) == (bits + Zeros(k))[n..];
        FilledIs(rest, bits[n..], k, n);
      } else {
        OneGroup(|groups|, |bits| + k, n);
        assert rest == [] && |Flatten(rest, n)| == 0;
        assert bits + Zeros(k) == BitsOf(first, n);
      }
    }
  }

  /** And the filled groups have fewer zeros too many than a group has bits. */
  lemma {:induction false} FilledBits(bits: seq<bool>, n: nat) returns (k: nat)
    requires n > 0
    ensures k < n && Fits(Filled(bits, n), n) && Flatten(Filled(bits, n), n) == bits + Zeros(k)
    decreases |bits|
  {
    hide Flatten, BitsOf, Value, Power2, Zeros;
    assert |Flatten([], n)| == 0;
    if bits == [] {
      k := 0;
      assert Flatten([], n) == bits + Zeros(k);
    } else if |bits| < n {
      k := n - |bits|;
      BitsOfValue(bits + Zeros(k));
      FlattenFirst(Value(bits + Zeros(k)), [], n);
      assert [Value(bits + Zeros(k))] + [] == [Value(bits + Zeros(k))];
    } else {
      k := FilledBits(bits[n..], n);
      BitsOfValue(bits[..n]);
      FlattenFirst(Value(bits[..n]), Filled(bits[n..], n), n);
      assert bits == bits[..n] + bits[n..];
    }
  }

  /** Groups with something left over, shorter than a group. */
  lemma {:induction false} DroppedIs(groups: seq<nat>, left: seq<bool>, n: nat)
    requires |left| < n && Fits(groups, n)
    ensures Dropped(Flatten(groups, n) + left, n) == groups
    decreases |groups|
  {
    hide Flatten, BitsOf, Value, Power2;
    if groups == [] {
      assert |Flatten(groups, n)| == 0;
    } else {
      var first, rest := groups[0], groups[1..];
      assert groups == [first] + rest;
      FlattenFirst(first, rest, n);
      ValueOfBits(first, n);
      var bits := Flatten(groups, n) + left;
      Cut(bits, BitsOf(first, n), Flatten(rest, n) + left);
      DroppedIs(rest, left, n);
    }
  }

  /** Bits that fill whole groups can be grouped separately. */
  lemma {:induction false} FilledConcat(groups: seq<nat>, bits: seq<bool>, n: nat)
    requires n > 0 && Fits(groups, n)
    ensures Filled(Flatten(groups, n) + bits, n) == groups + Filled(bits, n)
  {
    var k := FilledBits(bits, n);
    var all := groups + Filled(bits, n);
    FlattenConcat(groups, Filled(bits, n), n);
    assert Flatten(all, n) == (Flatten(groups, n) + bits) + Zeros(k);
    FilledIs(all, Flatten(groups, n) + bits, k, n);
  }
}
