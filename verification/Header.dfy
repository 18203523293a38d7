/** The two-stage parser for inbound frame headers. */
module FrameHeaders {
  import opened Bytes
  import opened NetworkOrder
  import opened FrameFormat

  datatype HeaderState = FIRST | SECOND | CONTROL | DATA

  const PROTOCOL_ERROR: nat := 1002
  const INCONSISTENT_DATA: nat := 1007

  /** The code for a header that is complete, given whether a new message may start here.  Zero is acceptance. */
  function Verdict(head: Head, newRequest: bool): nat {
    if IsControl(head.opcode) then
      if !head.fin then INCONSISTENT_DATA
      else if head.length > 125 then PROTOCOL_ERROR
      else 0
    else if newRequest == (head.opcode == CONTINUATION) then PROTOCOL_ERROR
    else 0
  }

  /** Which first bytes the long condition of the first stage lets through. */
  lemma DefinedTest(b0: byte, rsvc: byte)
    ensures Defined(b0, rsvc) <==>
            !((b0 & 0x70) != rsvc
              || (b0 & 0x0F) == 0x03
              || (b0 & 0x0F) == 0x04
              || (b0 & 0x0F) == 0x05
              || (b0 & 0x0F) == 0x06
              || (b0 & 0x0F) == 0x07
              || (b0 & 0x0F) == 0x0B
              || (b0 & 0x0F) == 0x0C
              || (b0 & 0x0F) == 0x0D
              || (b0 & 0x0F) == 0x0E
              || (b0 & 0x0F) == 0x0F)
  {}

  lemma ShortLengthTest(b1: byte)
    ensures ShortLength(b1) == b1 & 0x7F
    ensures 0 <= ShortLength(b1) as int <= 127
    ensures ShortLength(b1) as int == 126 <==> ShortLength(b1) == 126
    ensures ShortLength(b1) as int == 127 <==> ShortLength(b1) == 127
  {}

  lemma ControlTest(b0: byte)
    ensures IsControl(Opcode(b0)) <==> (b0 & 0x0F) == 0x08 || (b0 & 0x0F) == 0x09 || (b0 & 0x0F) == 0x0A
    ensures Fin(b0) <==> (b0 & 0x80) == 0x80
    ensures Opcode(b0) == CONTINUATION <==> (b0 & 0x0F) == 0x00
  {}

  class Header {
    var state: HeaderState
    var rsvc: byte
    var nextReadSize: nat
    var payloadSize: nat
    var mask: nat  // where in the buffer the masking key is
    var buffer: array<byte>
    var isBinary: bool

    constructor ()
      ensures fresh(buffer) && rsvc == 0 && buffer.Length == 14
    {
      state, rsvc, nextReadSize, payloadSize, mask, isBinary := FIRST, 0, 0, 0, 0, false;
      buffer := new byte[14];
    }

    /** A fresh buffer, and the first two bytes to read. */
    method NewBuffer()
      modifies this
      ensures fresh(buffer) && buffer.Length == 14
      ensures state == FIRST && nextReadSize == 2 && rsvc == old(rsvc)
    {
      buffer := new byte[14](_ => 0);
      nextReadSize := 2;
      state := FIRST;
    }

    predicate IsFin()
      requires buffer.Length == 14
      reads this, buffer
    {
      (buffer[0] & 0x80) != 0
    }

    /** Where the next bytes go. */
    function CurrentPosition(): nat
      requires state == FIRST || state == SECOND
      reads this
    {
      if state == FIRST then 0 else 2
    }

    function Key(): (k: Key)
      requires buffer.Length == 14 && mask <= 10
      reads this, buffer
    {
      buffer[mask..mask + 4]
    }

    /** Between the two stages: the first two bytes are accepted, and what is missing fits behind them without
        touching the place where an absent key reads as zero. */
    ghost predicate Halfway()
      reads this, buffer
    {
      && buffer.Length == 14
      && state == SECOND
      && Defined(buffer[0], rsvc)
      && nextReadSize == HeaderSize(buffer[1]) - 2
      && payloadSize == ShortLength(buffer[1]) as int
      && isBinary == ReadsAsBinary(buffer[0])
      && (if Masked(buffer[1]) then mask == nextReadSize - 2
          else mask == 10 && nextReadSize <= 8 && buffer[10..14] == ZERO_KEY)
    }

    /** The header at the front of the buffer has been decoded into the fields. */
    ghost predicate Decoded()
      reads this, buffer
    {
      && buffer.Length == 14
      && mask <= 10
      && Key() == MaskingKey(buffer[..])
      && payloadSize == PayloadLength(buffer[..])
      && isBinary == ReadsAsBinary(buffer[0])
    }

    /** The key follows the extended length; an absent key reads as zero from the end of the buffer. */
    method ChooseMask()
      requires buffer.Length == 14
      modifies this`mask, this`nextReadSize, buffer
      ensures buffer[0] == old(buffer[0]) && buffer[1] == old(buffer[1])
      ensures nextReadSize == old(nextReadSize) + if Masked(buffer[1]) then 4 else 0
      ensures if Masked(buffer[1]) then mask == nextReadSize - 2 else mask == 10 && buffer[10..14] == ZERO_KEY
    {
      ghost var b1 := buffer[1];
      if (buffer[1] & 0x80) != 0 {
        mask := 2 + nextReadSize;
        nextReadSize := nextReadSize + 4;
      } else {
        mask := 10;
        buffer[mask], buffer[mask + 1], buffer[mask + 2], buffer[mask + 3] := 0, 0, 0, 0;
      }
      assert buffer[1] == b1;
    }

    method FirstTwo()
      requires buffer.Length == 14
      modifies this`isBinary, this`payloadSize
      ensures isBinary == ReadsAsBinary(buffer[0])
      ensures payloadSize == ShortLength(buffer[1]) as int
    {
      isBinary := (buffer[0] & 0x02) == 0x02;
      payloadSize := (buffer[1] & 0x7F) as int;
    }

    method SizeLeftToRead()
      requires buffer.Length == 14 && payloadSize == ShortLength(buffer[1]) as int
      modifies this`nextReadSize
      ensures nextReadSize == ExtendedSize(buffer[1])
    {
      ShortLengthTest(buffer[1]);
      nextReadSize := 0;
      if payloadSize <= 125 {
        nextReadSize := 0;
      } else if payloadSize == 126 {
        nextReadSize := 2;
      } else if payloadSize == 127 {
        nextReadSize := 8;
      }
    }

    /** What the first two bytes say about the rest of the header. */
    method PlaceMask()
      requires buffer.Length == 14 && Defined(buffer[0], rsvc)
      modifies this, buffer
      ensures buffer == old(buffer) && rsvc == old(rsvc)
      ensures buffer[0] == old(buffer[0]) && buffer[1] == old(buffer[1])
      ensures Halfway()
    {
      ghost var b0, b1 := buffer[0], buffer[1];
      FirstTwo();
      hide Defined, Opcode, ShortLength, ExtendedSize, Masked, ReadsAsBinary;
      SizeLeftToRead();
      ChooseMask();
      state := SECOND;
      assert buffer[0] == b0 && buffer[1] == b1;
    }

    method ProcessState1(newRequest: bool) returns (code: nat)
      requires buffer.Length == 14 && state == FIRST
      modifies this, buffer
      ensures buffer == old(buffer) && rsvc == old(rsvc)
      ensures buffer[0] == old(buffer[0]) && buffer[1] == old(buffer[1])
      ensures code == (if Defined(buffer[0], rsvc) then 0 else PROTOCOL_ERROR)
      ensures code == 0 ==> Halfway()
    {
      DefinedTest(buffer[0], rsvc);
      if (buffer[0] & 0x70) != rsvc
         || (buffer[0] & 0x0F) == 0x03
         || (buffer[0] & 0x0F) == 0x04
         || (buffer[0] & 0x0F) == 0x05
         || (buffer[0] & 0x0F) == 0x06
         || (buffer[0] & 0x0F) == 0x07
         || (buffer[0] & 0x0F) == 0x0B
         || (buffer[0] & 0x0F) == 0x0C
         || (buffer[0] & 0x0F) == 0x0D
         || (buffer[0] & 0x0F) == 0x0E
         || (buffer[0] & 0x0F) == 0x0F
      {
        return 1002;
      }
      PlaceMask();
      return 0;
    }

    /** Replaces the seven bit length by the extended one. */
    method DecodeLength()
      requires Halfway()
      modifies this`payloadSize
      ensures payloadSize == PayloadLength(buffer[..])
    {
      ghost var b := buffer[..];
      ShortLengthTest(b[1]);
      hide BigEndian;
      if payloadSize == 126 {
        payloadSize := Word16(buffer[2], buffer[3]) as int;
        Word16Value(b[2], b[3]);
        assert b[2..4] == [b[2], b[3]];
      } else if payloadSize == 127 {
        payloadSize := Word64(buffer[2], buffer[3], buffer[4], buffer[5],
                              buffer[6], buffer[7], buffer[8], buffer[9]) as int;
        Word64Value(b[2], b[3], b[4], b[5], b[6], b[7], b[8], b[9]);
        assert b[2..10] == [b[2], b[3], b[4], b[5], b[6], b[7], b[8], b[9]];
      }
    }

    /** Tells control frames from data frames, and both from what may not come now. */
    method Classify(newRequest: bool) returns (code: nat)
      requires buffer.Length == 14
      modifies this`state
      ensures code == Verdict(Head(Fin(buffer[0]), Opcode(buffer[0]), ZERO_KEY, payloadSize), newRequest)
      ensures code == 0 ==> state == if IsControl(Opcode(buffer[0])) then CONTROL else DATA
    {
      ControlTest(buffer[0]);
      hide IsControl, Fin;
      if (buffer[0] & 0x0F) == 0x08
         || (buffer[0] & 0x0F) == 0x09
         || (buffer[0] & 0x0F) == 0x0A
      {
        if (buffer[0] & 0x80) != 0x80 {
          return 1007;
        }
        if payloadSize > 125 {
          return 1002;
        }
        state := CONTROL;
      } else if newRequest && (buffer[0] & 0x0F) == 0x00 {
        return 1002;
      } else if !newRequest && (buffer[0] & 0x0F) != 0x00 {
        return 1002;
      } else {
        state := DATA;
      }
      return 0;
    }

    /** The mask pointer shows the masking key, or four zeros where the frame has none. */
    lemma KeyPlace()
      requires buffer.Length == 14
      requires if Masked(buffer[1]) then mask == HeaderSize(buffer[1]) - 4 else mask == 10 && buffer[10..14] == ZERO_KEY
      ensures Key() == MaskingKey(buffer[..])
    {
      assert buffer[mask..mask + 4] == buffer[..][mask..mask + 4];
    }

    method ProcessState2(newRequest: bool) returns (code: nat)
      requires Halfway()
      modifies this
      ensures buffer == old(buffer) && rsvc == old(rsvc)
      ensures code == Verdict(ParseHead(buffer[..]), newRequest)
      ensures Decoded()
      ensures code == 0 ==> state == if IsControl(Opcode(buffer[0])) then CONTROL else DATA
    {
      DecodeLength();
      KeyPlace();
      code := Classify(newRequest);
    }

    method Process(newRequest: bool) returns (code: nat)
      requires buffer.Length == 14
      requires state == SECOND ==> Halfway()
      modifies this, buffer
      ensures buffer == old(buffer) && rsvc == old(rsvc)
      ensures buffer[0] == old(buffer[0]) && buffer[1] == old(buffer[1])
      ensures old(state) == FIRST ==>
                && code == (if Defined(buffer[0], rsvc) then 0 else PROTOCOL_ERROR)
                && (code == 0 ==> Halfway())
      ensures old(state) == SECOND ==>
                && buffer[..] == old(buffer[..])
                && code == Verdict(ParseHead(buffer[..]), newRequest)
                && Decoded()
                && (code == 0 ==> state == if IsControl(Opcode(buffer[0])) then CONTROL else DATA)
      ensures old(state) == CONTROL || old(state) == DATA ==> code == PROTOCOL_ERROR && buffer[..] == old(buffer[..])
    {
      if state == FIRST {
        code := ProcessState1(newRequest);
      } else if state == SECOND {
        code := ProcessState2(newRequest);
      } else {
        code := 1002;
      }
    }

    /** Takes over a parsed header.  The buffer becomes shared. */
    method Transfer(header: Header)
      modifies this
      ensures buffer == header.buffer && mask == header.mask
      ensures payloadSize == header.payloadSize && isBinary == header.isBinary
      ensures old(header.Decoded()) ==> Decoded()
    {
      buffer := header.buffer;
      mask := header.mask;
      payloadSize := header.payloadSize;
      isBinary := header.isBinary;
    }
  }
}
