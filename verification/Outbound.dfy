/** Sending a message to the client: one unmasked frame, which this program's own receiving side reads back. */
module Outbound {
  import opened Bytes
  import opened FrameFormat
  import opened Decoder
  import opened OutboundHeader
  import Messages
  import Utf8

  function KindOpcode(isBinary: bool): byte { if isBinary then BINARY else TEXT }

  /** The header in front of the data is the one a sender puts there who neither masks nor fragments. */
  lemma WrittenIsFrame(data: seq<byte>, size: bv64, isBinary: bool, random: Key)
    requires |data| == Value(size)
    ensures Messages.Sendable(Messages.Part(None, data))
    ensures Written(size, WriteFlags(isBinary), random) + data ==
            Messages.FrameBytes(true, KindOpcode(isBinary), Messages.Part(None, data))
  {
    var flags := WriteFlags(isBinary);
    assert !MaskFlag(flags) && FirstByte(flags) == if isBinary then 0x82 else 0x81;
    assert Messages.HeadByte(true, KindOpcode(isBinary)) == FirstByte(flags);
    UnmaskZero(data, 0);
  }

  lemma NoMask(size: bv64, isBinary: bool, random: Key)
    ensures |Written(size, WriteFlags(isBinary), random)| == Reserve(size, WriteFlags(isBinary))
  {
    assert !MaskFlag(WriteFlags(isBinary));
    ReserveIsExact(size, WriteFlags(isBinary), random);
  }

  lemma SentFrame(data: seq<byte>, isBinary: bool)
    requires Messages.Sendable(Messages.Part(None, data))
    ensures var part := Messages.Part(None, data);
            var sent := Messages.FrameBytes(true, KindOpcode(isBinary), part);
            && Frame(sent) && Payload(sent) == data
            && ParseHead(sent) == Head(true, KindOpcode(isBinary), ZERO_KEY, |data|)
            && sent == Messages.MessageBytes(KindOpcode(isBinary), [part])
  {
    var part := Messages.Part(None, data);
    Messages.FrameBytesParse(true, KindOpcode(isBinary), part);
    UnmaskZero(Payload(Messages.FrameBytes(true, KindOpcode(isBinary), part)), 0);
    hide Unmask, Messages.FrameBytes, Payload;
  }

  /** The bytes of header and data that go to the socket together.  The header fills exactly the space reserved for it,
      and what is sent is one frame with the data as its payload. */
  method Write(data: seq<byte>, size: bv64, isBinary: bool, random: Key) returns (sent: seq<byte>)
    requires |data| == Value(size)
    ensures Frame(sent) && Payload(sent) == data
    ensures ParseHead(sent) == Head(true, KindOpcode(isBinary), ZERO_KEY, |data|)
    ensures |sent| == Reserve(size, WriteFlags(isBinary)) + |data|
    ensures Messages.Sendable(Messages.Part(None, data))
    ensures sent == Messages.MessageBytes(KindOpcode(isBinary), [Messages.Part(None, data)])
  {
    hide *;
    var header := new byte[Reserve(size, WriteFlags(isBinary))];
    NoMask(size, isBinary, random);
    MakeHeader(header, size, WriteFlags(isBinary), random);
    assert header[..] == Written(size, WriteFlags(isBinary), random);
    sent := header[..] + data;
    WrittenIsFrame(data, size, isBinary, random);
    SentFrame(data, isBinary);
  }

  lemma OnePart(data: seq<byte>)
    ensures var parts := [Messages.Part(None, data)];
            && Messages.DataOf(parts) == data && Messages.TextOf(TEXT, parts) == data
            && Utf8.WellFormed(Messages.TextOf(BINARY, parts))
  {
    var parts := [Messages.Part(None, data)];
    assert parts[1..] == [];
    assert data + [] == data;
    assert Utf8.WellFormed([]);
  }

  /** Read by a session, what `Write` sends is the message with its kind, unless it is text that is not UTF-8. */
  lemma WrittenIsDelivered(data: seq<byte>, isBinary: bool, rest: seq<byte>, chunkSize: nat)
    requires Messages.Sendable(Messages.Part(None, data)) && chunkSize > 0
    ensures Decode(IDLE, Messages.MessageBytes(KindOpcode(isBinary), [Messages.Part(None, data)]) + rest, chunkSize) ==
            if isBinary || Utf8.WellFormed(data) then [Deliver(isBinary, data)] + Decode(IDLE, rest, chunkSize)
            else [Cancel(1007)]
  {
    hide Decode, Messages.MessageBytes, Messages.TextOf, Messages.DataOf, Utf8.WellFormed;
    Messages.MessageOutcome(KindOpcode(isBinary), [Messages.Part(None, data)], rest, chunkSize);
    OnePart(data);
  }
}
