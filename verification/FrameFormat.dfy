/** The base framing of section 5.2 of RFC 6455, as a decoder and an encoder on byte sequences. */
module FrameFormat {
  import opened Bytes
  import opened NetworkOrder

  datatype Option<+T> = None | Some(value: T)

  const CONTINUATION: byte := 0x0
  const TEXT: byte := 0x1
  const BINARY: byte := 0x2
  const CLOSE: byte := 0x8
  const PING: byte := 0x9
  const PONG: byte := 0xA

  predicate Fin(b0: byte) { (b0 & 0x80) != 0 }

  function Opcode(b0: byte): byte { b0 & 0x0F }

  /** How this parser tells binary from text. */
  predicate ReadsAsBinary(b0: byte) { (b0 & 0x02) == 0x02 }

  /** The reserved bits are the negotiated ones and the opcode is a defined one. */
  predicate Defined(b0: byte, rsvc: byte) {
    (b0 & 0x70) == rsvc && Opcode(b0) in {CONTINUATION, TEXT, BINARY, CLOSE, PING, PONG}
  }

  predicate IsControl(opcode: byte) { opcode in {CLOSE, PING, PONG} }

  predicate Masked(b1: byte) { (b1 & 0x80) != 0 }

  function ShortLength(b1: byte): byte { b1 & 0x7F }

  /** How many bytes hold the extended payload length. */
  function ExtendedSize(b1: byte): (n: nat)
    ensures n <= 8
  {
    if ShortLength(b1) == 126 then 2 else if ShortLength(b1) == 127 then 8 else 0
  }

  function HeaderSize(b1: byte): (n: nat)
    ensures 2 <= n <= 14
  {
    2 + ExtendedSize(b1) + if Masked(b1) then 4 else 0
  }

  datatype Head = Head(fin: bool, opcode: byte, key: Key, length: nat)

  ghost predicate Whole(h: seq<byte>) {
    |h| >= 2 && |h| >= HeaderSize(h[1])
  }

  function PayloadLength(h: seq<byte>): nat
    requires Whole(h)
  {
    if ExtendedSize(h[1]) == 0 then ShortLength(h[1]) as int
    else BigEndian(h[2..2 + ExtendedSize(h[1])])
  }

  function MaskingKey(h: seq<byte>): Key
    requires Whole(h)
  {
    if Masked(h[1]) then h[HeaderSize(h[1]) - 4..HeaderSize(h[1])] else ZERO_KEY
  }

  /** The frame header at the beginning of `h`. */
  function ParseHead(h: seq<byte>): Head
    requires Whole(h)
  {
    Head(Fin(h[0]), Opcode(h[0]), MaskingKey(h), PayloadLength(h))
  }

  /** What follows a header does not matter. */
  lemma ParsePrefix(h: seq<byte>, rest: seq<byte>)
    requires Whole(h)
    ensures Whole(h + rest) && ParseHead(h + rest) == ParseHead(h)
  {
    var n, e := HeaderSize(h[1]), ExtendedSize(h[1]);
    assert (h + rest)[..n] == h[..n];
    assert (h + rest)[2..2 + e] == h[2..2 + e];
    assert Masked(h[1]) ==> (h + rest)[n - 4..n] == h[n - 4..n];
  }

  /** How many bytes the shortest form of a length takes, the mask bit included. */
  function LengthFieldSize(length: nat): (n: nat)
    ensures 1 <= n <= 9
  {
    if length <= 125 then 1 else if length <= 65535 then 3 else 9
  }

  /** The mask bit, the seven bit length and the extended length. */
  function LengthField(masked: bool, length: nat): (s: seq<byte>)
    requires length < 0x1_0000_0000_0000_0000
    ensures |s| == LengthFieldSize(length)
  {
    var bit: byte := if masked then 0x80 else 0x00;
    if length <= 125 then [bit | ByteOf(length)]
    else if length <= 65535 then [bit | 126] + BigEndianBytes(length, 2)
    else [bit | 127] + BigEndianBytes(length, 8)
  }

  /** A frame header for a payload of the given length, in the shortest form. */
  function FrameHeader(b0: byte, key: Option<Key>, length: nat): (h: seq<byte>)
    requires length < 0x1_0000_0000_0000_0000
    ensures |h| == 1 + LengthFieldSize(length) + if key.Some? then 4 else 0
    ensures h[0] == b0
  {
    [b0] + LengthField(key.Some?, length) + (if key.Some? then key.value else [])
  }

  lemma SmallLength(length: nat, bit: byte)
    requires length <= 125 && (bit == 0x80 || bit == 0x00)
    ensures var b1 := bit | ByteOf(length);
            ShortLength(b1) as int == length && ShortLength(b1) < 126 && (Masked(b1) <==> bit == 0x80)
  {
    ByteValue(length);
  }

  lemma LengthFieldFirst(masked: bool, length: nat)
    requires length < 0x1_0000_0000_0000_0000
    ensures var f := LengthField(masked, length);
            && Masked(f[0]) == masked
            && ExtendedSize(f[0]) == |f| - 1
            && (length <= 125 ==> ShortLength(f[0]) as int == length)
  {
    if length <= 125 {
      SmallLength(length, if masked then 0x80 else 0x00);
    }
  }

  lemma PowerValues()
    ensures Power256(2) == 0x1_0000 && Power256(8) == 0x1_0000_0000_0000_0000
  {
    assert Power256(1) == 256 && Power256(3) == 0x100_0000 && Power256(4) == 0x1_0000_0000;
    assert Power256(5) == 0x100_0000_0000 && Power256(6) == 0x1_0000_0000_0000;
  }

  lemma LengthDigits(masked: bool, length: nat)
    requires 125 < length < 0x1_0000_0000_0000_0000
    ensures BigEndian(LengthField(masked, length)[1..]) == length
  {
    hide BigEndian, BigEndianBytes;
    PowerValues();
    hide Power256;
    if length <= 65535 {
      BigEndianRoundTrip(length, 2);
      assert LengthField(masked, length)[1..] == BigEndianBytes(length, 2);
    } else {
      BigEndianRoundTrip(length, 8);
      assert LengthField(masked, length)[1..] == BigEndianBytes(length, 8);
    }
  }

  /** Parsing undoes encoding, for every length and with or without a key. */
  lemma HeaderRoundTrip(b0: byte, key: Option<Key>, length: nat, rest: seq<byte>)
    requires length < 0x1_0000_0000_0000_0000
    ensures var h := FrameHeader(b0, key, length);
            && HeaderSize(h[1]) == |h|
            && Whole(h + rest)
            && ParseHead(h + rest) == Head(Fin(b0), Opcode(b0), if key.Some? then key.value else ZERO_KEY, length)
  {
    var h, f := FrameHeader(b0, key, length), LengthField(key.Some?, length);
    LengthFieldFirst(key.Some?, length);
    hide LengthField, ShortLength, Masked;
    assert h[1] == f[0];
    assert h[1..1 + |f|] == f;
    if length > 125 {
      LengthDigits(key.Some?, length);
      assert h[2..1 + |f|] == f[1..];
    }
    if key.Some? {
      assert h[1 + |f|..] == key.value;
    }
    ParsePrefix(h, rest);
  }

  lemma ShortAsInt(b1: byte)
    requires ExtendedSize(b1) == 0
    ensures ShortLength(b1) as int <= 125
  {}

  /** Every length is a 64-bit number. */
  lemma LengthInRange(h: seq<byte>)
    requires Whole(h)
    ensures PayloadLength(h) < 0x1_0000_0000_0000_0000
  {
    var e := ExtendedSize(h[1]);
    if e == 0 {
      ShortAsInt(h[1]);
    } else {
      hide BigEndian, BigEndianBytes;
      PowerValues();
      BigEndianBytesRoundTrip(h[2..2 + e]);
    }
  }

  /** No header for the same length, masked alike, is shorter. */
  lemma ShortestForm(b0: byte, key: Option<Key>, h: seq<byte>)
    requires Whole(h) && Masked(h[1]) == key.Some?
    ensures PayloadLength(h) < 0x1_0000_0000_0000_0000
    ensures |FrameHeader(b0, key, PayloadLength(h))| <= HeaderSize(h[1])
  {
    var e := ExtendedSize(h[1]);
    LengthInRange(h);
    if e == 0 {
      ShortAsInt(h[1]);
    } else if e == 2 {
      BigEndianBytesRoundTrip(h[2..4]);
      PowerValues();
    }
  }

  /** The fields of the first byte: FIN, three reserved bits, four bits of opcode. */
  lemma FirstByteFields(b0: byte)
    ensures Fin(b0) <==> b0 >= 128
    ensures Opcode(b0) == b0 % 16
    ensures Defined(b0, 0) <==> b0 / 16 % 8 == 0 && b0 % 16 in {0, 1, 2, 8, 9, 10}
    ensures IsControl(Opcode(b0)) <==> b0 % 16 in {8, 9, 10}
  {}

  lemma SecondByteFields(b1: byte)
    ensures Masked(b1) <==> b1 >= 128
    ensures ShortLength(b1) == b1 % 128
  {}

  lemma BigEndianTwo(s: seq<byte>)
    requires |s| == 2
    ensures BigEndian(s) == s[0] as int * 256 + s[1] as int
  {
    assert BigEndian(s[..1][..0]) == 0;
    assert s[..1][0] == s[0];
  }

  lemma Halves<T>(s: seq<T>)
    requires |s| == 8
    ensures s == s[..6] + s[6..] && s[..6] == s[..4] + s[4..6] && s[..4] == s[..2] + s[2..4]
  {}

  lemma TwoMore(s: seq<byte>, t: seq<byte>)
    requires |t| == 2
    ensures BigEndian(s + t) == BigEndian(s) * 0x1_0000 + BigEndian(t)
  {
    hide *;
    BigEndianTwo(t);
    Snoc(s, t[0]);
    Snoc(s + [t[0]], t[1]);
    assert s + t == (s + [t[0]]) + [t[1]];
  }

  lemma EightDigits(s: seq<byte>)
    requires |s| == 8
    ensures BigEndian(s) ==
            s[0] as int * 0x100_0000_0000_0000 + s[1] as int * 0x1_0000_0000_0000
            + s[2] as int * 0x100_0000_0000 + s[3] as int * 0x1_0000_0000
            + s[4] as int * 0x100_0000 + s[5] as int * 0x1_0000
            + s[6] as int * 0x100 + s[7] as int
  {
    hide *;
    Halves(s);
    TwoMore(s[..6], s[6..]);
    TwoMore(s[..4], s[4..6]);
    TwoMore(s[..2], s[2..4]);
    BigEndianTwo(s[..2]);
    BigEndianTwo(s[2..4]);
    BigEndianTwo(s[4..6]);
    BigEndianTwo(s[6..]);
  }

  /** The header fields of section 5.2, in numbers: where they are, and what they stand for. */
  lemma HeaderFields(h: seq<byte>)
    requires Whole(h)
    ensures var short, masked := h[1] % 128, h[1] >= 128;
            && HeaderSize(h[1]) ==
               2 + (if short == 126 then 2 else if short == 127 then 8 else 0) + (if masked then 4 else 0)
            && MaskingKey(h) == (if masked then h[HeaderSize(h[1]) - 4..HeaderSize(h[1])] else [0, 0, 0, 0])
            && PayloadLength(h) ==
               if short == 126 then h[2] as int * 256 + h[3] as int
               else if short == 127 then
                 h[2] as int * 0x100_0000_0000_0000 + h[3] as int * 0x1_0000_0000_0000
                 + h[4] as int * 0x100_0000_0000 + h[5] as int * 0x1_0000_0000
                 + h[6] as int * 0x100_0000 + h[7] as int * 0x1_0000
                 + h[8] as int * 0x100 + h[9] as int
               else short as int
  {
    SecondByteFields(h[1]);
    if ExtendedSize(h[1]) == 2 {
      BigEndianTwo(h[2..4]);
    } else if ExtendedSize(h[1]) == 8 {
      EightDigits(h[2..10]);
    }
    hide BigEndian, ShortLength, Masked;
  }

  /** Exactly one unmasked frame. */
  ghost predicate IsFrame(s: seq<byte>, head: Head, payload: seq<byte>) {
    && Whole(s) && ParseHead(s) == head && head.key == ZERO_KEY
    && head.length == |payload| && s[HeaderSize(s[1])..] == payload
  }
}
