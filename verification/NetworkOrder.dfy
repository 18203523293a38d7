/** Numbers in network byte order. */
module NetworkOrder {
  import opened Bytes

  function BigEndian(s: seq<byte>): (n: nat)
    ensures s == [] ==> n == 0
  {
    if s == [] then 0 else BigEndian(s[..|s| - 1]) * 256 + s[|s| - 1] as int
  }

  /** The byte with the value `n`, counted up from zero. */
  function ByteOf(n: nat): byte
    requires n < 256
  {
    if n == 0 then 0 else ByteOf(n - 1) + 1
  }

  lemma Increment(b: byte)
    requires b as int < 255
    ensures (b + 1) as int == b as int + 1
  {}

  lemma {:induction false} ByteValue(n: nat)
    requires n < 256
    ensures ByteOf(n) as int == n
  {
    if n == 0 {
    } else {
      ByteValue(n - 1);
      Increment(ByteOf(n - 1));
    }
  }

  lemma SameValue(a: byte, b: byte)
    requires a as int == b as int
    ensures a == b
  {}

  lemma ByteOfValue(b: byte)
    ensures 0 <= b as int < 256 && ByteOf(b as int) == b
  {
    ByteValue(b as int);
    SameValue(b, ByteOf(b as int));
  }

  /** The lowest digit of `n` to base 256. */
  function Digit(n: nat): byte {
    ByteOf(n % 256)
  }

  function BigEndianBytes(n: nat, size: nat): (s: seq<byte>)
    ensures |s| == size
  {
    if size == 0 then [] else BigEndianBytes(n / 256, size - 1) + [Digit(n)]
  }

  function Power256(n: nat): (p: nat)
    ensures p > 0
  {
    if n == 0 then 1 else 256 * Power256(n - 1)
  }

  lemma DigitValue(n: nat)
    ensures Digit(n) as int == n % 256
  {
    ByteValue(n % 256);
  }

  lemma DigitOfByte(high: nat, b: byte)
    ensures 0 <= (b as int) < 256
    ensures Digit(high * 256 + b as int) == b && (high * 256 + b as int) / 256 == high
  {
    ByteOfValue(b);
    assert (high * 256 + b as int) % 256 == b as int;
  }

  lemma Snoc(s: seq<byte>, b: byte)
    ensures BigEndian(s + [b]) == BigEndian(s) * 256 + b as int
  {
    assert (s + [b])[..|s|] == s;
  }

  lemma {:induction false} BigEndianRoundTrip(n: nat, size: nat)
    requires n < Power256(size)
    ensures BigEndian(BigEndianBytes(n, size)) == n
  {
    if size == 0 {
    } else {
      hide Digit, BigEndian;
      BigEndianRoundTrip(n / 256, size - 1);
      DigitValue(n);
      Snoc(BigEndianBytes(n / 256, size - 1), Digit(n));
    }
  }

  lemma {:induction false} BigEndianBytesRoundTrip(s: seq<byte>)
    ensures BigEndian(s) < Power256(|s|)
    ensures BigEndianBytes(BigEndian(s), |s|) == s
  {
    hide Digit, BigEndian;
    if s == [] {
    } else {
      var n := |s| - 1;
      BigEndianBytesRoundTrip(s[..n]);
      Snoc(s[..n], s[n]);
      DigitOfByte(BigEndian(s[..n]), s[n]);
      assert s == s[..n] + [s[n]];
    }
  }

  lemma ShiftIn(x: bv64, b: byte)
    requires x < 0x0100_0000_0000_0000
    ensures ((x << 8) | (b as bv64)) as int == (x as int) * 256 + b as int
  {}

  /** The sixteen-bit length, put together with shifts. */
  function Word16(b0: byte, b1: byte): bv64 {
    ((b0 as bv64) << 8) | (b1 as bv64)
  }

  /** The sixty-four-bit length, put together with shifts. */
  function Word64(b0: byte, b1: byte, b2: byte, b3: byte, b4: byte, b5: byte, b6: byte, b7: byte): bv64 {
    ((b0 as bv64) << 56) | ((b1 as bv64) << 48) | ((b2 as bv64) << 40) | ((b3 as bv64) << 32)
    | ((b4 as bv64) << 24) | ((b5 as bv64) << 16) | ((b6 as bv64) << 8) | (b7 as bv64)
  }

  lemma Word16Value(b0: byte, b1: byte)
    ensures Word16(b0, b1) as int == BigEndian([b0, b1])
  {
    hide BigEndian;
    ShiftIn(b0 as bv64, b1);
    Snoc([], b0);
    Snoc([b0], b1);
    assert [] + [b0] == [b0] && [b0] + [b1] == [b0, b1];
    assert BigEndian([]) == 0;
    assert (b0 as bv64) as int == b0 as int;
  }

  function Push(x: bv64, b: byte): bv64 {
    (x << 8) | (b as bv64)
  }

  lemma PushByte(x: bv64, b: byte)
    requires x < 0x0100_0000_0000_0000
    ensures Push(x, b) as int == (x as int) * 256 + b as int
  {
    ShiftIn(x, b);
  }

  lemma SameSum(p: int, x: int, b: int, n: int, m: int)
    requires p == x * 256 + b && m == n * 256 + b && x == n
    ensures p == m
  {}

  lemma PushValue(x: bv64, s: seq<byte>, b: byte)
    requires x < 0x0100_0000_0000_0000 && x as int == BigEndian(s)
    ensures Push(x, b) as int == BigEndian(s + [b])
  {
    hide *;
    PushByte(x, b);
    Snoc(s, b);
    SameSum(Push(x, b) as int, x as int, b as int, BigEndian(s), BigEndian(s + [b]));
  }

  lemma Word32Value(b0: byte, b1: byte, b2: byte, b3: byte)
    ensures Push(Push(Word16(b0, b1), b2), b3) as int == BigEndian([b0, b1, b2, b3])
    ensures Push(Push(Word16(b0, b1), b2), b3) < 0x1_0000_0000
  {
    hide BigEndian;
    var x := Word16(b0, b1);
    Word16Value(b0, b1);
    PushValue(x, [b0, b1], b2);
    PushValue(Push(x, b2), [b0, b1] + [b2], b3);
    assert [b0, b1] + [b2] + [b3] == [b0, b1, b2, b3];
  }

  lemma PushRoom(x: bv64, b0: byte, b1: byte, b2: byte)
    requires x < 0x1_0000_0000
    ensures Push(x, b0) < 0x100_0000_0000
    ensures Push(Push(x, b0), b1) < 0x1_0000_0000_0000
    ensures Push(Push(Push(x, b0), b1), b2) < 0x100_0000_0000_0000
  {}

  lemma PushFour(x: bv64, s: seq<byte>, b0: byte, b1: byte, b2: byte, b3: byte)
    requires x < 0x1_0000_0000 && x as int == BigEndian(s)
    ensures Push(Push(Push(Push(x, b0), b1), b2), b3) as int == BigEndian(s + [b0, b1, b2, b3])
  {
    hide BigEndian;
    PushRoom(x, b0, b1, b2);
    hide Push;
    PushValue(x, s, b0);
    PushValue(Push(x, b0), s + [b0], b1);
    PushValue(Push(Push(x, b0), b1), s + [b0] + [b1], b2);
    PushValue(Push(Push(Push(x, b0), b1), b2), s + [b0] + [b1] + [b2], b3);
    assert s + [b0] + [b1] + [b2] + [b3] == s + [b0, b1, b2, b3];
  }

  lemma Word64Pushed(b0: byte, b1: byte, b2: byte, b3: byte, b4: byte, b5: byte, b6: byte, b7: byte)
    ensures Word64(b0, b1, b2, b3, b4, b5, b6, b7) ==
            Push(Push(Push(Push(Push(Push(Word16(b0, b1), b2), b3), b4), b5), b6), b7)
  {}

  /** The shifted words are the numbers in network byte order. */
  lemma Word64Value(b0: byte, b1: byte, b2: byte, b3: byte, b4: byte, b5: byte, b6: byte, b7: byte)
    ensures Word64(b0, b1, b2, b3, b4, b5, b6, b7) as int == BigEndian([b0, b1, b2, b3, b4, b5, b6, b7])
  {
    Word64Pushed(b0, b1, b2, b3, b4, b5, b6, b7);
    hide BigEndian, Push, Word64, Word16;
    Word32Value(b0, b1, b2, b3);
    PushFour(Push(Push(Word16(b0, b1), b2), b3), [b0, b1, b2, b3], b4, b5, b6, b7);
    assert [b0, b1, b2, b3] + [b4, b5, b6, b7] == [b0, b1, b2, b3, b4, b5, b6, b7];
  }
}
