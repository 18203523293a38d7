/** Whole control frames, as a sender makes them: what the receiving side answers. */
module ControlFrames {
  import opened Bytes
  import opened NetworkOrder
  import opened FrameFormat
  import opened Controls
  import opened Decoder
  import opened Messages
  import opened Sequences
  import Utf8

  lemma BareLength(b1: byte, length: nat)
    requires ShortLength(b1) as int == length
    ensures Bare(b1) == ByteOf(length)
  {
    ByteOfValue(Bare(b1));
  }

  /** The second byte of a short frame. */
  lemma ShortSecondByte(fin: bool, opcode: byte, part: Part)
    requires |part.data| <= 125
    ensures var f := FrameBytes(fin, opcode, part);
            |f| >= 2 && ExtendedSize(f[1]) == 0 && ShortLength(f[1]) as int == |part.data|
  {
    LengthFieldFirst(part.key.Some?, |part.data|);
    var f := FrameBytes(fin, opcode, part);
    hide LengthField, ShortLength, Unmask;
    assert f[1] == LengthField(part.key.Some?, |part.data|)[0];
  }

  lemma OpcodeSum(opcode: byte)
    requires opcode in {8, 9, 10}
    ensures var b: byte := 128 + opcode; b >= 128 && b / 16 % 8 == 0 && b % 16 == opcode
  {}

  /** The control frame that a sender makes: accepted at any place. */
  lemma ControlBytes(m: Message, opcode: byte, part: Part)
    requires opcode in {8, 9, 10} && |part.data| <= 125
    ensures var f := FrameBytes(true, opcode, part);
            && Whole(f) && |f| >= 2 && |f| >= FrameSize(f) && Frame(f)
            && HeadCode(m, f) == 0 && Defined(f[0], 0) && Fin(f[0]) && Opcode(f[0]) == opcode
            && ExtendedSize(f[1]) == 0 && ShortLength(f[1]) as int == |part.data| && Bare(f[1]) == ByteOf(|part.data|)
            && MaskingKey(f) == KeyOf(part) && Payload(f) == Unmask(part.data, KeyOf(part), 0)
            && Unmask(Payload(f), KeyOf(part), 0) == part.data
  {
    var f := FrameBytes(true, opcode, part);
    FrameBytesParse(true, opcode, part);
    ShortSecondByte(true, opcode, part);
    HeadByteFields(true, opcode);
    HeadCodeIs(m, f);
    FirstByteFields(f[0]);
    BareLength(f[1], |part.data|);
    hide FrameBytes, HeadByte, Unmask, Bare, ShortLength, HeadCode, Defined, Fin, Opcode, ByteOf;
    assert ParseHead(f).key == MaskingKey(f) && ParseHead(f).length == PayloadLength(f);
    OpcodeSum(opcode);
  }

  /** A control frame with a header that is accepted. */
  lemma ControlDecodes(m: Message, f: seq<byte>, rest: seq<byte>, chunkSize: nat)
    requires Frame(f) && chunkSize > 0 && HeadCode(m, f) == 0 && IsControl(Opcode(f[0]))
    ensures Decode(m, f + rest, chunkSize) ==
            var answer := Response(f[0], f[1], MaskingKey(f), Payload(f));
            if answer.Reject? then [Cancel(answer.code)]
            else if answer.Goodbye? then [Farewell(answer.reply)]
            else if answer.Reply? then [Send(answer.reply)] + Decode(m, rest, chunkSize)
            else Decode(m, rest, chunkSize)
  {
    hide Decode, HeadCode, Response, IsControl, Opcode;
    DecodeFrame(m, f, rest, chunkSize);
    Units(Decode(m, rest, chunkSize));
  }

  /** A ping, with any key and up to 125 bytes of data, anywhere in a message: the answer is a pong with the same data,
      and everything else goes on as before. */
  lemma PingAnswered(m: Message, part: Part, rest: seq<byte>, chunkSize: nat)
    requires |part.data| <= 125 && chunkSize > 0
    ensures Decode(m, FrameBytes(true, 0x9, part) + rest, chunkSize) ==
            [Send([0x8A, ByteOf(|part.data|)] + part.data)] + Decode(m, rest, chunkSize)
  {
    var f := FrameBytes(true, 0x9, part);
    ControlBytes(m, 0x9, part);
    PongOf(f[0]);
    PingResponse(f[0], f[1], KeyOf(part), Payload(f));
    hide FrameBytes, Decode, HeadCode, Unmask, Response, Bare, AsPong, ByteOf, Defined, Fin, Opcode, MaskingKey;
    ControlDecodes(m, f, rest, chunkSize);
  }

  lemma PongResponse(b0: byte, b1: byte, key: Key, raw: seq<byte>)
    requires Opcode(b0) == PONG
    ensures Response(b0, b1, key, raw) == Silence
  {}

  /** A pong is not answered. */
  lemma PongIgnored(m: Message, part: Part, rest: seq<byte>, chunkSize: nat)
    requires |part.data| <= 125 && chunkSize > 0
    ensures Decode(m, FrameBytes(true, 0xA, part) + rest, chunkSize) == Decode(m, rest, chunkSize)
  {
    var f := FrameBytes(true, 0xA, part);
    ControlBytes(m, 0xA, part);
    PongResponse(f[0], f[1], MaskingKey(f), Payload(f));
    hide FrameBytes, Decode, HeadCode, Unmask, Response, Bare, ByteOf, Defined, Fin, Opcode, MaskingKey;
    ControlDecodes(m, f, rest, chunkSize);
  }

  lemma CloseIsControl(b0: byte)
    ensures Opcode(b0) == 0x8 ==> Opcode(b0) == CLOSE && IsControl(Opcode(b0))
  {}

  /** A close frame, with any key and up to 125 bytes of payload, anywhere in a message: the plainest one is answered
      with 88 00; a status code that may be sent is sent back with the reason, any other becomes 1002; a malformed
      reason ends the connection with 1007.  A payload of a single byte comes back masked, or as 03. */
  lemma CloseAnswered(m: Message, part: Part, rest: seq<byte>, chunkSize: nat)
    requires |part.data| <= 125 && chunkSize > 0
    ensures var raw := Unmask(part.data, KeyOf(part), 0);
            Decode(m, FrameBytes(true, 0x8, part) + rest, chunkSize) ==
            if |part.data| >= 2 && !Utf8.WellFormed(part.data[2..]) then [Cancel(1007)]
            else [Farewell([0x88, ByteOf(|part.data|)] + ClosingPayload(part.data, raw))]
  {
    var f := FrameBytes(true, 0x8, part);
    hide *;
    ControlBytes(m, 0x8, part);
    CloseIsControl(f[0]);
    CloseFrame(f[0], f[1], KeyOf(part), Payload(f));
    ControlDecodes(m, f, rest, chunkSize);
  }

  lemma ByteZero()
    ensures ByteOf(0) == 0
  {}

  /** The plainest close, masked or not, is answered with the same in the clear. */
  lemma EmptyCloseAnswered(m: Message, key: Option<Key>, rest: seq<byte>, chunkSize: nat)
    requires chunkSize > 0
    ensures Decode(m, FrameBytes(true, 0x8, Part(key, [])) + rest, chunkSize) == [Farewell([0x88, 0x00])]
  {
    hide Decode, FrameBytes, Unmask, ByteOf;
    CloseAnswered(m, Part(key, []), rest, chunkSize);
    ByteZero();
    assert [0x88, ByteOf(0)] + [] == [0x88, 0x00];
  }

  lemma BareForms(b1: byte)
    requires ShortLength(b1) in {0, 126, 127}
    ensures Bare(b1) in {0x00, 0x7E, 0x7F}
  {}

  lemma ZeroLength(f: seq<byte>)
    requires Whole(f) && PayloadLength(f) == 0
    ensures ShortLength(f[1]) in {0, 126, 127} && (ExtendedSize(f[1]) == 0 ==> ShortLength(f[1]) as int == 0)
  {
    hide BigEndian;
  }

  /** An empty close with its length in any form: the answer repeats the form, without the length itself. */
  lemma EmptyCloseForms(m: Message, f: seq<byte>, rest: seq<byte>, chunkSize: nat)
    requires Frame(f) && chunkSize > 0 && f[0] == 0x88 && PayloadLength(f) == 0
    ensures Decode(m, f + rest, chunkSize) == [Farewell([0x88, Bare(f[1])])] && Bare(f[1]) in {0x00, 0x7E, 0x7F}
  {
    HeadCodeIs(m, f);
    FirstByteFields(f[0]);
    CloseIsControl(f[0]);
    CloseFrame(f[0], f[1], MaskingKey(f), Payload(f));
    hide BigEndian, Unmask, Utf8.WellFormed, Decode, HeadCode, Bare, ShortLength, Masked, MaskingKey, Response;
    ZeroLength(f);
    BareForms(f[1]);
    ControlDecodes(m, f, rest, chunkSize);
    Units([0x88, Bare(f[1])]);
  }

  lemma FirstSum(fin: bool, opcode: byte)
    requires opcode in {8, 9, 10}
    ensures var b: byte := (if fin then 128 else 0) + opcode;
            (b >= 128 <==> fin) && b / 16 % 8 == 0 && b % 16 == opcode
  {}

  /** Control frames that are fragmented or too long end the connection. */
  lemma ControlRefused(m: Message, fin: bool, opcode: byte, part: Part, rest: seq<byte>, chunkSize: nat)
    requires opcode in {8, 9, 10} && Sendable(part) && chunkSize > 0
    requires !fin || |part.data| > 125
    ensures Decode(m, FrameBytes(fin, opcode, part) + rest, chunkSize) == [Cancel(if fin then 1002 else 1007)]
  {
    var f := FrameBytes(fin, opcode, part);
    FrameBytesParse(fin, opcode, part);
    HeadByteFields(fin, opcode);
    HeadCodeIs(m, f);
    FirstSum(fin, opcode);
    hide FrameBytes, HeadByte, Unmask, HeadCode, Decode, Fin, Opcode, MaskingKey;
    assert ParseHead(f).length == PayloadLength(f);
    DecodeFrame(m, f, rest, chunkSize);
  }
}
