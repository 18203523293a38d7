/** Control frames: what they are answered with. */
module Controls {
  import opened Bytes
  import opened NetworkOrder
  import opened FrameFormat
  import opened FrameHeaders
  import opened Masking
  import opened Sequences
  import Utf8

  datatype ControlState = KILL | PING_RECEIVED | PONG_RECEIVED | INVALID

  // ---------------------------------------------------------------------------
  // What a control frame calls for
  // ---------------------------------------------------------------------------

  datatype Answer =
    | Reject(code: nat)
    | Goodbye(reply: seq<byte>)
    | Reply(reply: seq<byte>)
    | Silence

  /** The status codes of section 7.4 that are echoed. */
  predicate Echoed(code: nat) {
    1000 <= code <= 1003 || 1007 <= code <= 1011 || 3000 <= code <= 4999
  }

  /** Status code 1002 in network byte order. */
  const PROTOCOL_ERROR_BYTES: seq<byte> := [0x03, 0xEA]

  /** The payload of the answer to a close frame.  A status code that may not be sent is replaced; the reason stays. */
  function ClosePayload(raw: seq<byte>, plain: seq<byte>): (r: seq<byte>)
    requires |raw| == |plain|
    ensures |r| == |raw|
  {
    if |raw| == 0 then []
    else if |raw| == 1 then (if Echoed(BigEndian([raw[0], 0])) then raw else PROTOCOL_ERROR_BYTES[..1])
    else (if Echoed(BigEndian(plain[..2])) then plain[..2] else PROTOCOL_ERROR_BYTES) + plain[2..]
  }

  /** The second header byte without the mask bit. */
  function Bare(b1: byte): byte { b1 & 0x7F }

  /** The first header byte with the opcode of a pong. */
  function AsPong(b0: byte): byte { (b0 & 0xF0) | 0x0A }

  /** The reason in a close frame, if there is one, is well formed. */
  ghost predicate ReasonOk(plain: seq<byte>) {
    |plain| >= 2 ==> Utf8.WellFormed(plain[2..])
  }

  /** What the control frame with first bytes `b0`, `b1` and masked payload `raw` calls for. */
  ghost function Response(b0: byte, b1: byte, key: Key, raw: seq<byte>): Answer {
    var plain := Unmask(raw, key, 0);
    if Opcode(b0) == CLOSE then
      if ReasonOk(plain) then Goodbye([b0, Bare(b1)] + ClosePayload(raw, plain)) else Reject(INCONSISTENT_DATA)
    else if Opcode(b0) == PING then Reply([AsPong(b0), Bare(b1)] + plain)
    else Silence
  }

  /** The outcome of processing a control frame is what the frame calls for. */
  predicate CarriesOut(answer: Answer, code: nat, state: ControlState, sent: seq<byte>) {
    match answer
    case Reject(c) => code == c
    case Goodbye(reply) => code == 0 && state == KILL && sent == reply
    case Reply(reply) => code == 0 && state == PING_RECEIVED && sent == reply
    case Silence => code == 0 && state == PONG_RECEIVED
  }

  lemma PongByte(b0: byte)
    requires Defined(b0, 0) && Fin(b0)
    ensures AsPong(b0) == 0x8A && Opcode(0x8A) == PONG && Fin(0x8A)
  {}

  lemma UnmaskedByte(b1: byte)
    ensures !Masked(Bare(b1)) && ShortLength(Bare(b1)) == ShortLength(b1) && ExtendedSize(Bare(b1)) == ExtendedSize(b1)
  {}

  /** Two header bytes without a mask and a payload: a frame exactly when the length is not an extended one. */
  lemma ShortFrame(b0: byte, b1: byte, payload: seq<byte>)
    requires !Masked(b1) && (ExtendedSize(b1) == 0 ==> ShortLength(b1) as int == |payload|)
    ensures ExtendedSize(b1) == 0 <==>
            IsFrame([b0, b1] + payload, Head(Fin(b0), Opcode(b0), ZERO_KEY, |payload|), payload)
  {
    var s := [b0, b1] + payload;
    assert s[2..] == payload;
    hide Masked, ShortLength, ExtendedSize, Opcode, Fin;
    if ExtendedSize(b1) > 0 && Whole(s) {
      assert |s[HeaderSize(s[1])..]| < |payload|;
    }
  }

  /** The answer to a ping is one unmasked pong frame with the unmasked ping data exactly when the ping's length was
      encoded in the short form. */
  lemma PongFrame(b0: byte, b1: byte, key: Key, raw: seq<byte>)
    requires Defined(b0, 0) && Fin(b0) && Opcode(b0) == PING
    requires ExtendedSize(b1) == 0 ==> ShortLength(b1) as int == |raw|
    ensures var answer := Response(b0, b1, key, raw);
            answer.Reply? &&
            (ExtendedSize(b1) == 0 <==>
             IsFrame(answer.reply, Head(true, PONG, ZERO_KEY, |raw|), Unmask(raw, key, 0)))
  {
    PongByte(b0);
    UnmaskedByte(b1);
    hide Unmask;
    ShortFrame(AsPong(b0), Bare(b1), Unmask(raw, key, 0));
  }

  /** The status codes that are echoed, one by one. */
  lemma EchoedAre(code: nat)
    ensures Echoed(code) <==>
            code in {1000, 1001, 1002, 1003, 1007, 1008, 1009, 1010, 1011} || 3000 <= code <= 4999
  {}

  lemma ErrorBytes()
    ensures BigEndian(PROTOCOL_ERROR_BYTES) == 1002
  {
    Word16Value(0x03, 0xEA);
    assert Word16(0x03, 0xEA) == 1002;
  }

  /** The payload of the answer to a close frame with a status code. */
  lemma SentPayload(raw: seq<byte>, plain: seq<byte>)
    requires |raw| == |plain| >= 2
    ensures var code, sent := BigEndian(plain[..2]), ClosePayload(raw, plain);
            && sent[2..] == plain[2..]
            && sent[..2] == (if Echoed(code) then plain[..2] else PROTOCOL_ERROR_BYTES)
            && BigEndian(sent[..2]) == (if Echoed(code) then code else 1002)
  {
    var sent := ClosePayload(raw, plain);
    ErrorBytes();
    hide BigEndian;
    if Echoed(BigEndian(plain[..2])) {
      Cut(sent, plain[..2], plain[2..]);
    } else {
      Cut(sent, PROTOCOL_ERROR_BYTES, plain[2..]);
    }
  }

  /** A single byte is taken for the upper half of a status code. */
  lemma SingleByte(b: byte)
    ensures ClosePayload([b], [b]) == [if 12 <= b <= 19 then b else 0x03]
  {
    BigEndianTwo([b, 0]);
    assert 0 <= b as int < 256 && (12 <= b <= 19 <==> 12 <= b as int <= 19);
    hide BigEndian;
  }

  lemma CloseByte(b0: byte)
    requires Defined(b0, 0) && Fin(b0) && Opcode(b0) == CLOSE
    ensures b0 == 0x88 && Fin(0x88) && Opcode(0x88) == CLOSE
  {}

  /** A payload without a status code is never unmasked. */
  lemma ShortClose(raw: seq<byte>, plain: seq<byte>)
    requires |raw| == |plain|
    ensures ClosePayload(raw, plain) == ClosePayload(raw, if |raw| >= 2 then plain else raw)
  {}

  lemma CloseResponse(b0: byte, b1: byte, key: Key, raw: seq<byte>)
    requires Opcode(b0) == CLOSE
    ensures var plain := Unmask(raw, key, 0);
            Response(b0, b1, key, raw) ==
            if |raw| >= 2 && !Utf8.WellFormed(plain[2..]) then Reject(1007)
            else Goodbye([b0, Bare(b1)] + ClosePayload(raw, plain))
  {
    hide Unmask, ClosePayload, Utf8.WellFormed, Bare;
  }

  /** What the answer to a close frame carries, when the frame's payload `data` came masked as `raw`: the status code,
      if it is one of section 7.4 that may be sent, and 1002 otherwise, and the reason.  A single byte is taken for the
      upper half of a code. */
  function ClosingPayload(data: seq<byte>, raw: seq<byte>): (sent: seq<byte>)
    requires |raw| == |data|
    ensures |sent| == |data|
  {
    if |data| == 0 then []
    else if |data| == 1 then [if 12 <= raw[0] <= 19 then raw[0] else 0x03]
    else
      var code := BigEndian(data[..2]);
      (if code in {1000, 1001, 1002, 1003, 1007, 1008, 1009, 1010, 1011} || 3000 <= code <= 4999 then data[..2]
       else [0x03, 0xEA]) + data[2..]
  }

  lemma ClosingPayloadIs(data: seq<byte>, raw: seq<byte>)
    requires |raw| == |data|
    ensures ClosePayload(raw, data) == ClosingPayload(data, raw)
  {
    if |raw| == 1 {
      assert raw == [raw[0]];
      ShortClose(raw, data);
      SingleByte(raw[0]);
    } else if |raw| >= 2 {
      EchoedAre(BigEndian(data[..2]));
    }
    hide BigEndian, Echoed;
  }

  /** The status code in it. */
  lemma ClosingCode(data: seq<byte>, raw: seq<byte>)
    requires |raw| == |data| >= 2
    ensures var code := BigEndian(data[..2]);
            BigEndian(ClosingPayload(data, raw)[..2]) ==
            if code in {1000, 1001, 1002, 1003, 1007, 1008, 1009, 1010, 1011} || 3000 <= code <= 4999 then code
            else 1002
  {
    ClosingPayloadIs(data, raw);
    EchoedAre(BigEndian(data[..2]));
    SentPayload(raw, data);
    hide BigEndian, ClosePayload, ClosingPayload, Echoed;
  }

  /** A close frame is accepted exactly when it has no reason or a well-formed one.  The answer has the same reason; it
      is one close frame exactly when the length was encoded in the short form. */
  lemma CloseFrame(b0: byte, b1: byte, key: Key, raw: seq<byte>)
    requires Defined(b0, 0) && Fin(b0) && Opcode(b0) == CLOSE
    requires ExtendedSize(b1) == 0 ==> ShortLength(b1) as int == |raw|
    ensures var plain, answer := Unmask(raw, key, 0), Response(b0, b1, key, raw);
            if |raw| >= 2 && !Utf8.WellFormed(plain[2..]) then answer == Reject(1007)
            else
              var sent := ClosingPayload(plain, raw);
              && answer == Goodbye([0x88, Bare(b1)] + sent)
              && (ExtendedSize(b1) == 0 <==> IsFrame(answer.reply, Head(true, CLOSE, ZERO_KEY, |raw|), sent))
  {
    hide *;
    var plain := Unmask(raw, key, 0);
    CloseByte(b0);
    CloseResponse(b0, b1, key, raw);
    ClosingPayloadIs(plain, raw);
    UnmaskedByte(b1);
    ShortFrame(0x88, Bare(b1), ClosingPayload(plain, raw));
  }

  lemma SplitUnmask(s: seq<byte>, length: nat, key: Key)
    requires 2 <= length && 2 + length <= |s|
    ensures Unmask(s[2..2 + length], key, 0)[..2] == Unmask(s[2..4], key, 0)
    ensures Unmask(s[2..2 + length], key, 0)[2..] == Unmask(s[4..2 + length], key, 2)
    ensures Unmask(s[2..2 + length], key, 0) == Unmask(s[2..4], key, 0) + Unmask(s[4..2 + length], key, 2)
  {
    hide Unmask;
    assert s[2..2 + length] == s[2..4] + s[4..2 + length];
    UnmaskConcat(s[2..4], s[4..2 + length], key, 0);
  }

  lemma SecondOffset(key: Key, maskOffset: nat, b: seq<byte>)
    requires key == ZERO_KEY || maskOffset % 4 == 2
    ensures Unmask(b, key, maskOffset) == Unmask(b, key, 2)
  {
    SameUnmask(b, key, maskOffset, 2);
  }

  lemma Pieces<T>(before: seq<T>, mid: seq<T>, after: seq<T>, length: nat)
    requires |before| == |mid| == |after| && 2 <= length && 2 + length <= |before|
    requires mid[..2] == before[..2] && after[..4] == mid[..4]
    ensures after[..2] == before[..2]
    ensures after[2..2 + length] == mid[2..4] + after[4..2 + length]
  {
    assert after[..2] == after[..4][..2];
    assert after[2..4] == after[..4][2..];
  }

  lemma ControlOpcode(b0: byte)
    ensures Opcode(b0) == CLOSE <==> (b0 & 0x0F) == 0x08
    ensures Opcode(b0) == PING <==> (b0 & 0x0F) == 0x09
    ensures Opcode(b0) == PONG <==> (b0 & 0x0F) == 0x0A
  {}

  lemma PingResponse(b0: byte, b1: byte, key: Key, raw: seq<byte>)
    requires Opcode(b0) == PING
    ensures Response(b0, b1, key, raw) == Reply([AsPong(b0), Bare(b1)] + Unmask(raw, key, 0))
  {}

  lemma HeadAndPayload<T>(before: seq<T>, after: seq<T>, length: nat)
    requires |before| == |after| && 2 + length <= |before| && after[2..] == before[2..]
    ensures after[2..2 + length] == before[2..2 + length]
    ensures after[..2 + length] == after[..2] + before[2..2 + length]
  {
    assert after[2..][..length] == before[2..][..length];
  }

  /** The replaced status code and the untouched rest are the answer's payload. */
  lemma Reassemble(before: seq<byte>, after: seq<byte>, raw: seq<byte>, now: seq<byte>, payload: seq<byte>, length: nat)
    requires |before| == |after| && 4 <= |before| && 2 + length <= |before| && |raw| == |now| == length
    requires before[2..2 + length] == now && (length < 2 ==> now == raw && before[3] == 0)
    requires payload == ClosePayload(raw, now)
    requires after[..2] == before[..2] && after[4..] == before[4..]
    requires after[2..4] == if Echoed(BigEndian(before[2..4])) then before[2..4] else PROTOCOL_ERROR_BYTES
    ensures after[..2 + length] == before[..2] + payload
  {
    hide Echoed, BigEndian;
    assert before[2..4] == [before[2], before[3]];
    if length >= 2 {
      assert now[..2] == before[2..4];
      assert after[..2 + length] == after[..2] + after[2..4] + after[4..][..length - 2];
      assert now[2..] == before[4..][..length - 2];
    } else if length == 1 {
      assert raw[0] == before[2];
      assert after[..3] == after[..2] + [after[2..4][0]];
    }
  }

  class Control {
    var buffer: array<byte>
    var size: uint8
    var state: ControlState

    constructor ()
      ensures buffer.Length == 129 && fresh(buffer)
    {
      buffer := new byte[129];
      size, state := 0, INVALID;
    }

    method NewBuffer()
      modifies this
      ensures fresh(buffer) && buffer.Length == 129
      ensures forall i :: 0 <= i < 129 ==> buffer[i] == 0
    {
      buffer := new byte[129](_ => 0);
    }

    /** Unmasks the payload of a close frame in two calls and checks the reason.  The second call takes over the
        offset the first one leaves. */
    method UnmaskClose(key: Key, length: nat) returns (ok: bool)
      requires buffer.Length == 129 && 2 <= length <= 125
      modifies buffer
      ensures buffer[..2] == old(buffer[..2])
      ensures ok <==> Utf8.WellFormed(Unmask(old(buffer[2..2 + length]), key, 0)[2..])
      ensures ok ==> buffer[2..2 + length] == Unmask(old(buffer[2..2 + length]), key, 0)
    {
      var utf8 := new Utf8.Byte();
      hide Unmask, Utf8.Consume, Utf8.WellFormed;
      hide Utf8.Byte.Valid, Utf8.Byte.Expecting, Utf8.Byte.Ok, Utf8.Byte.Complete;
      ghost var before := buffer[..];
      ghost var a, b := before[2..4], before[4..2 + length];
      SplitUnmask(before, length, key);
      var maskOffset := ApplyMask(buffer, 2, 2, key, 0, false, utf8);
      ghost var mid := buffer[..];
      assert mid[4..2 + length] == b by {
        assert mid[4..][..length - 2] == before[4..][..length - 2];
      }
      SecondOffset(key, maskOffset, b);
      maskOffset := ApplyMask(buffer, 4, length - 2, key, maskOffset, true, utf8);
      ok := utf8.Complete();
      Utf8.CompleteIffWellFormed(Unmask(b, key, 2));
      Pieces(before, mid, buffer[..], length);
    }

    method SetHead(b0: byte, b1: byte)
      requires buffer.Length == 129
      modifies buffer
      ensures buffer[..2] == [b0, b1] && buffer[2..] == old(buffer[2..]) && buffer[3] == old(buffer[3])
    {
      buffer[0], buffer[1] := b0, b1;
    }

    /** A status code that may not be sent gives way to 1002. */
    method ReplaceCode()
      requires buffer.Length == 129
      modifies buffer
      ensures buffer[..2] == old(buffer[..2]) && buffer[4..] == old(buffer[4..])
      ensures var code := BigEndian(old(buffer[2..4]));
              buffer[2..4] ==
              if code in {1000, 1001, 1002, 1003, 1007, 1008, 1009, 1010, 1011} || 3000 <= code <= 4999
              then old(buffer[2..4]) else [0x03, 0xEA]
    {
      ghost var two := buffer[2..4];
      assert two == [buffer[2], buffer[3]];
      Word16Value(buffer[2], buffer[3]);
      var code: nat := Word16(buffer[2], buffer[3]) as int;
      if code < 1000
         || (code < 3000
             && code != 1000 && code != 1001 && code != 1002 && code != 1003
             && code != 1007 && code != 1008 && code != 1009 && code != 1010
             && code != 1011)
         || code > 4999
      {
        buffer[2], buffer[3] := 0x03, 0xEA;
      }
    }

    /** The payload is in the clear, unless it is a single byte. */
    method FinishClose(b0: byte, b1: byte, ghost raw: seq<byte>, length: nat)
      requires buffer.Length == 129 && |raw| == length <= 125
      requires length < 2 ==> buffer[2..2 + length] == raw && buffer[3] == 0
      modifies buffer
      ensures buffer[..2 + length] == [b0, Bare(b1)] + ClosePayload(raw, old(buffer[2..2 + length]))
    {
      hide ClosePayload, Bare, BigEndian, Echoed;
      ghost var start, now := buffer[..], buffer[2..2 + length];
      SetHead(b0, Bare(b1));
      ghost var before := buffer[..];
      HeadAndPayload(start, before, length);
      EchoedAre(BigEndian(before[2..4]));
      ReplaceCode();
      Reassemble(before, buffer[..], raw, now, ClosePayload(raw, now), length);
    }

    method ProcessClose(key: Key, length: nat) returns (code: nat)
      requires buffer.Length == 129 && length <= 125 && (length < 2 ==> buffer[3] == 0)
      modifies this`state, buffer
      ensures var raw := old(buffer[2..2 + length]);
              if ReasonOk(Unmask(raw, key, 0)) then
                && code == 0 && state == KILL
                && buffer[..2 + length] ==
                   [old(buffer[0]), Bare(old(buffer[1]))]
                   + ClosePayload(raw, if length >= 2 then Unmask(raw, key, 0) else raw)
              else code == INCONSISTENT_DATA
    {
      hide ClosePayload, Unmask, Bare, Utf8.WellFormed;
      var b0, b1 := buffer[0], buffer[1];
      ghost var raw := buffer[2..2 + length];
      if length >= 2 {
        var ok := UnmaskClose(key, length);
        if !ok {
          return 1007;
        }
      }
      state := KILL;
      FinishClose(b0, b1, raw, length);
      return 0;
    }

    method ProcessPing(key: Key, length: nat) returns (code: nat)
      requires buffer.Length == 129 && length <= 125 && Opcode(buffer[0]) == PING
      modifies this`state, buffer
      ensures CarriesOut(Response(old(buffer[0]), old(buffer[1]), key, old(buffer[2..2 + length])),
                         code, state, buffer[..2 + length])
    {
      var b0, b1 := buffer[0], buffer[1];
      ghost var plain := Unmask(buffer[2..2 + length], key, 0);
      var utf8 := new Utf8.Byte();
      PingResponse(b0, b1, key, buffer[2..2 + length]);
      hide Unmask, Utf8.Byte.Valid, Utf8.Byte.Expecting, Utf8.Byte.Ok, Utf8.Byte.Complete;
      hide Response, AsPong, Bare, Opcode;
      var maskOffset := ApplyMask(buffer, 2, length, key, 0, false, utf8);
      if !utf8.Complete() {
        assert false;  // nothing has been checked
      }
      state := PING_RECEIVED;
      ghost var before := buffer[..];
      SetHead(AsPong(b0), Bare(b1));
      HeadAndPayload(before, buffer[..], length);
      return 0;
    }

    method Dispatch(key: Key, length: nat) returns (code: nat)
      requires buffer.Length == 129 && length <= 125 && (length < 2 ==> buffer[3] == 0)
      modifies this`state, buffer
      ensures IsControl(Opcode(old(buffer[0]))) ==>
                CarriesOut(Response(old(buffer[0]), old(buffer[1]), key, old(buffer[2..2 + length])),
                           code, state, buffer[..2 + length])
    {
      ghost var b0, b1, raw := buffer[0], buffer[1], buffer[2..2 + length];
      ControlOpcode(b0);
      if (buffer[0] & 0x0F) == 0x08 {
        ShortClose(raw, Unmask(raw, key, 0));
        hide Opcode, ClosePayload, Unmask, ReasonOk, Bare, AsPong;
        code := ProcessClose(key, length);
      } else if (buffer[0] & 0x0F) == 0x09 {
        hide Opcode, Response;
        code := ProcessPing(key, length);
      } else if (buffer[0] & 0x0F) == 0x0A {
        hide Opcode;
        state := PONG_RECEIVED;
        code := 0;
      } else {
        hide Opcode, Response;
        state := INVALID;
        code := 0;
      }
    }

    method Process(header: Header) returns (code: nat)
      requires header.Decoded() && buffer.Length == 129 && header.payloadSize <= 125 && header.buffer != buffer
      requires header.payloadSize < 2 ==> buffer[3] == 0
      modifies this`size, this`state, buffer
      ensures var raw, b0, b1 := old(buffer[2..2 + header.payloadSize]), header.buffer[0], header.buffer[1];
              && size == header.payloadSize + 2
              && (IsControl(Opcode(b0)) ==>
                    CarriesOut(Response(b0, b1, header.Key(), raw), code, state, buffer[..size]))
    {
      hide Response, CarriesOut, MaskingKey, PayloadLength, ReadsAsBinary, Opcode, IsControl;
      size := (header.payloadSize + 2) % 256;
      ghost var before := buffer[..];
      SetHead(header.buffer[0], header.buffer[1]);
      HeadAndPayload(before, buffer[..], header.payloadSize);
      code := Dispatch(header.Key(), header.payloadSize);
    }
  }
}
