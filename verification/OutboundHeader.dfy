/** Writing the header of an outbound frame. */
module OutboundHeader {
  import opened Bytes
  import opened NetworkOrder
  import opened FrameFormat
  import opened Sequences

  /** The flags of `write`: FIN with the opcode in the upper byte, and no mask bit. */
  function WriteFlags(isBinary: bool): bv16 {
    0x8000 | (if isBinary then 0x0200 else 0x0100)
  }

  function Value(length: bv64): (n: nat)
    ensures n < 0x1_0000_0000_0000_0000
    ensures length <= 125 <==> n <= 125
    ensures length <= 65535 <==> n <= 65535
  {
    length as int
  }

  /** The test for the mask bit looks at a byte that has already been shifted out: no mask is ever counted. */
  function Reserve(length: bv64, flags: bv16): (size: nat)
    ensures size == 1 + LengthFieldSize(Value(length))
  {
    var flags8Bit := ((flags & 0x00ff) >> 8) as bv8;
    2 + (if (flags8Bit & 0x80) != 0 then 4 else 0)
      + (if length > 125 then if length > 65535 then 8 else 2 else 0)
  }

  /** The first header byte the flags ask for; bit 2 of an opcode is never written. */
  function FirstByte(flags: bv16): byte {
    (((flags & 0xff00) >> 8) as bv8) & 0xFB
  }

  predicate MaskFlag(flags: bv16) { (flags & 0x80) != 0 }

  method Flags2Header(data: array<byte>, flags: bv16)
    requires data.Length >= 2
    modifies data
    ensures data[0] == FirstByte(flags)
    ensures data[1] & 0x80 == if MaskFlag(flags) then 0x80 else 0x00
  {
    data[0] := 0x00;
    data[1] := data[1] & 0x7F;
    var flags8Bit := ((flags & 0xff00) >> 8) as bv8;
    data[0] := (flags8Bit & 0x80) | (flags8Bit & 0x40) | (flags8Bit & 0x20) | (flags8Bit & 0x10)
               | (flags8Bit & 0x00) | (flags8Bit & 0x01) | (flags8Bit & 0x02) | (flags8Bit & 0x03)
               | (flags8Bit & 0x09) | (flags8Bit & 0x0A);
    flags8Bit := (flags & 0x00ff) as bv8;
    data[1] := (data[1] & 0x7F) | (flags8Bit & 0x80);
  }

  lemma TwoBytes(length: bv64)
    requires length <= 65535
    ensures [((length & 0xff00) >> 8) as bv8, (length & 0x00ff) as bv8] == BigEndianBytes(Value(length), 2)
  {
    var b0, b1 := ((length & 0xff00) >> 8) as bv8, (length & 0x00ff) as bv8;
    assert Word16(b0, b1) == length;
    Word16Value(b0, b1);
    BigEndianBytesRoundTrip([b0, b1]);
  }

  /** The eight bytes of a length, as the writer cuts them out. */
  function EightBytes(length: bv64): (s: seq<byte>)
    ensures |s| == 8
  {
    [((length & 0xff00000000000000) >> 56) as bv8,
     ((length & 0x00ff000000000000) >> 48) as bv8,
     ((length & 0x0000ff0000000000) >> 40) as bv8,
     ((length & 0x000000ff00000000) >> 32) as bv8,
     ((length & 0x00000000ff000000) >> 24) as bv8,
     ((length & 0x0000000000ff0000) >> 16) as bv8,
     ((length & 0x000000000000ff00) >> 8) as bv8,
     (length & 0x00000000000000ff) as bv8]
  }

  lemma Reassembled(length: bv64)
    ensures var b := EightBytes(length); Word64(b[0], b[1], b[2], b[3], b[4], b[5], b[6], b[7]) == length
  {}

  lemma EightBytesValue(length: bv64)
    ensures EightBytes(length) == BigEndianBytes(Value(length), 8)
  {
    Reassembled(length);
    hide EightBytes, Word64;
    var b := EightBytes(length);
    Word64Value(b[0], b[1], b[2], b[3], b[4], b[5], b[6], b[7]);
    assert b == [b[0], b[1], b[2], b[3], b[4], b[5], b[6], b[7]];
    BigEndianBytesRoundTrip(b);
  }

  lemma ShortAsByte(length: bv64)
    requires length <= 125
    ensures ByteOf(Value(length)) == length as bv8
  {
    assert (length as bv8) as int == length as int;
    ByteOfValue(length as bv8);
  }

  /** The length field, in the pieces the writer puts together; `first` is the mask bit with the short length. */
  lemma FieldPieces(b1: byte, length: bv64, first: byte)
    requires first == (if length <= 125 then length as bv8 else if length <= 65535 then 126 else 127) | (b1 & 0x80)
    ensures var field := LengthField(Masked(b1), Value(length));
            if length <= 125 then field == [first]
            else if length <= 65535 then field == [first] + [((length & 0xff00) >> 8) as bv8, (length & 0x00ff) as bv8]
            else field == [first] + EightBytes(length)
  {
    assert (b1 & 0x80) == if Masked(b1) then 0x80 else 0x00;
    if length <= 125 {
      ShortAsByte(length);
    } else if length <= 65535 {
      TwoBytes(length);
    } else {
      EightBytesValue(length);
    }
  }

  method StoreTwo<T>(data: array<T>, b0: T, b1: T)
    requires data.Length >= 4
    modifies data
    ensures data[2..4] == [b0, b1] && data[..2] == old(data[..2])
  {
    data[2] := b0;
    data[3] := b1;
  }

  method StoreEight<T>(data: array<T>, b0: T, b1: T, b2: T, b3: T, b4: T, b5: T, b6: T, b7: T)
    requires data.Length >= 10
    modifies data
    ensures data[2..10] == [b0, b1, b2, b3, b4, b5, b6, b7] && data[..2] == old(data[..2])
  {
    data[2] := b0;
    data[3] := b1;
    data[4] := b2;
    data[5] := b3;
    data[6] := b4;
    data[7] := b5;
    data[8] := b6;
    data[9] := b7;
  }

  lemma FirstAndRest<T>(s: seq<T>, n: nat)
    requires 2 <= n <= |s|
    ensures s[1] == s[..2][1] && s[1..n] == [s[1]] + s[2..n]
  {}

  method WriteTwo(data: array<byte>, length: bv64)
    requires data.Length >= 4
    modifies data
    ensures data[2..4] == [((length & 0xff00) >> 8) as bv8, (length & 0x00ff) as bv8] && data[..2] == old(data[..2])
  {
    StoreTwo(data, ((length & 0x000000000000ff00) >> 8) as bv8, (length & 0x00000000000000ff) as bv8);
  }

  method WriteEight(data: array<byte>, length: bv64)
    requires data.Length >= 10
    modifies data
    ensures data[2..10] == EightBytes(length) && data[..2] == old(data[..2])
  {
    StoreEight(data,
               ((length & 0xff00000000000000) >> 56) as bv8,
               ((length & 0x00ff000000000000) >> 48) as bv8,
               ((length & 0x0000ff0000000000) >> 40) as bv8,
               ((length & 0x000000ff00000000) >> 32) as bv8,
               ((length & 0x00000000ff000000) >> 24) as bv8,
               ((length & 0x0000000000ff0000) >> 16) as bv8,
               ((length & 0x000000000000ff00) >> 8) as bv8,
               (length & 0x00000000000000ff) as bv8);
  }

  /** The mask bit, which `flags2header` has set or cleared before, stays. */
  method Length2Header(data: array<byte>, length: bv64) returns (written: nat)
    requires data.Length > LengthFieldSize(Value(length))
    modifies data
    ensures written == LengthFieldSize(Value(length))
    ensures data[0] == old(data[0])
    ensures data[1..1 + written] == LengthField(Masked(old(data[1])), Value(length))
  {
    ghost var b1 := data[1];
    if length <= 125 {
      data[1] := (length as bv8) | (data[1] & 0x80);
      FieldPieces(b1, length, data[1]);
      return 1;
    } else if length <= 65535 {
      data[1] := 126 | (data[1] & 0x80);
      FieldPieces(b1, length, data[1]);
      WriteTwo(data, length);
      FirstAndRest(data[..], 4);
      return 3;
    } else {
      data[1] := 127 | (data[1] & 0x80);
      FieldPieces(b1, length, data[1]);
      WriteEight(data, length);
      FirstAndRest(data[..], 10);
      return 9;
    }
  }

  /** What `makeHeader` has written when it returns. */
  function Written(length: bv64, flags: bv16, random: Key): (h: seq<byte>)
    ensures |h| == Reserve(length, flags) + if MaskFlag(flags) then 4 else 0
  {
    FrameHeader(FirstByte(flags), if MaskFlag(flags) then Some(random) else None, Value(length))
  }

  method GenerateMask(data: array<byte>, at: nat, random: Key)
    requires at + 4 <= data.Length
    modifies data
    ensures data[..at] == old(data[..at]) && data[at..at + 4] == random
  {
    data[at], data[at + 1], data[at + 2], data[at + 3] := random[0], random[1], random[2], random[3];
  }

  lemma MaskBit(b: byte, flags: bv16)
    ensures Masked(b) <==> (b & 0x80) != 0
    ensures (b & 0x80) == (if MaskFlag(flags) then 0x80 else 0x00) ==> Masked(b) == MaskFlag(flags)
  {}

  lemma WrittenParts(length: bv64, flags: bv16, random: Key)
    ensures var front := [FirstByte(flags)] + LengthField(MaskFlag(flags), Value(length));
            Written(length, flags, random) == if MaskFlag(flags) then front + random else front
  {
    hide LengthField, Value, FirstByte, MaskFlag;
    Units([FirstByte(flags)] + LengthField(MaskFlag(flags), Value(length)));
  }

  /** Fills the front of `data` with a frame header, whatever was there before.  `random` stands for the generated
      mask. */
  method MakeHeader(data: array<byte>, length: bv64, flags: bv16, random: Key)
    requires data.Length >= |Written(length, flags, random)|
    modifies data
    ensures data[..|Written(length, flags, random)|] == Written(length, flags, random)
  {
    hide *;
    WrittenParts(length, flags, random);
    var headerSize := 1;
    Flags2Header(data, flags);
    MaskBit(data[1], flags);
    var written := Length2Header(data, length);
    headerSize := headerSize + written;
    LengthFieldFirst(MaskFlag(flags), Value(length));
    assert data[1..1 + written][0] == data[1];
    assert data[..headerSize] == [data[0]] + data[1..1 + written];
    MaskBit(data[1], flags);
    if (data[1] & 0x80) != 0 {
      GenerateMask(data, headerSize, random);
      assert data[..headerSize + 4] == data[..headerSize] + data[headerSize..headerSize + 4];
    }
  }

  /** The header of an outbound data frame fills exactly the space reserved for it, reads back through the decoder
      as the data frame it announces, and is as short as such a header can be. */
  lemma WriteRoundTrip(length: bv64, isBinary: bool, random: Key, rest: seq<byte>)
    ensures var h := Written(length, WriteFlags(isBinary), random);
            && |h| == Reserve(length, WriteFlags(isBinary)) == HeaderSize(h[1])
            && Defined(h[0], 0)
            && Whole(h + rest)
            && ParseHead(h + rest) == Head(true, if isBinary then BINARY else TEXT, ZERO_KEY, Value(length))
            && ReadsAsBinary(h[0]) == isBinary
  {
    var flags := WriteFlags(isBinary);
    assert !MaskFlag(flags) && FirstByte(flags) == if isBinary then 0x82 else 0x81;
    HeaderRoundTrip(FirstByte(flags), None, Value(length), rest);
  }

  /** The space that is reserved is the space that is written exactly when no mask is asked for. */
  lemma ReserveIsExact(length: bv64, flags: bv16, random: Key)
    ensures |Written(length, flags, random)| == Reserve(length, flags) <==> !MaskFlag(flags)
  {}

  /** The flags that ask for a first byte and a mask. */
  function FlagsOf(b0: byte, mask: bool): bv16 {
    ((b0 as bv16) << 8) | (if mask then 0x80 else 0x00)
  }

  lemma FlagBytes(b0: byte, mask: bool)
    ensures var flags := FlagsOf(b0, mask);
            && FirstByte(flags) == b0 & 0xFB && MaskFlag(flags) == mask
            && Fin(b0 & 0xFB) == Fin(b0)
            && (b0 & 0xFB) / 8 == b0 / 8 && (b0 & 0xFB) % 4 == b0 % 4 && (b0 & 0xFB) / 4 % 2 == 0
            && (b0 & 0xFB == b0 <==> b0 / 4 % 2 == 0)
  {}

  lemma WrittenIsHeader(length: bv64, flags: bv16, random: Key)
    ensures Written(length, flags, random) ==
            FrameHeader(FirstByte(flags), if MaskFlag(flags) then Some(random) else None, Value(length))
    ensures |Written(length, flags, random)| > 0 && Written(length, flags, random)[0] == FirstByte(flags)
  {}

  /** Every first byte that is asked for is written, but for bit 2, which no defined opcode has; and so is the mask. */
  lemma FlagsRoundTrip(length: bv64, b0: byte, mask: bool, random: Key, rest: seq<byte>)
    ensures var h := Written(length, FlagsOf(b0, mask), random);
            && (h[0] == b0 <==> b0 / 4 % 2 == 0)
            && h[0] / 8 == b0 / 8 && h[0] % 4 == b0 % 4 && h[0] / 4 % 2 == 0
            && Whole(h + rest)
            && ParseHead(h + rest) ==
               Head(Fin(b0), Opcode(h[0]), if mask then random else ZERO_KEY, Value(length))
  {
    hide *;
    FlagBytes(b0, mask);
    var flags := FlagsOf(b0, mask);
    WrittenIsHeader(length, flags, random);
    HeaderRoundTrip(FirstByte(flags), if mask then Some(random) else None, Value(length), rest);
  }
}
