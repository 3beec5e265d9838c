/** The chat program's framing of `pdu.c`: a 2-byte length, itself included, then the payload. */
module Pdu {
  import opened Bytes

  /** `htons` of the frame length, then the payload. */
  function Frame(payload: seq<byte>): seq<byte>
    requires |payload| + 2 < TWO_16
  {
    [(|payload| + 2) / 0x100, (|payload| + 2) % 0x100] + payload
  }

  function FrameLength(high: byte, low: byte): u16 {
    0x100 * (high as int) + low
  }

  /** What one `recvPDU` reports: -1, 0 for a closed connection, or a payload. */
  datatype Pdu = Failed | Closed | Payload(data: seq<byte>)

  /** One `recvPDU` on what is left of a stream that ends there: the report and the bytes after it. */
  function Receive(stream: seq<byte>, bufferSize: nat): (Pdu, seq<byte>) {
    if |stream| == 0 then (Closed, [])
    else if |stream| < 2 then (Failed, [])
    else
      var length := FrameLength(stream[0], stream[1]);
      var left := stream[2..];
      if length < 2 || length - 2 > bufferSize then (Failed, left)
      else
        var received := if length - 2 <= |left| then length - 2 else |left|;
        if received == 0 then (Closed, left)
        else if received != length - 2 then (Failed, [])
        else (Payload(left[..received]), left[received..])
  }

  /** Repeated calls, until one does not yield a payload. */
  function ReceiveAll(stream: seq<byte>, bufferSize: nat): seq<seq<byte>>
    decreases |stream|
  {
    var (pdu, left) := Receive(stream, bufferSize);
    if pdu.Payload? then [pdu.data] + ReceiveAll(left, bufferSize) else []
  }

  /** Frames sent one after another. */
  function Frames(payloads: seq<seq<byte>>): seq<byte>
    requires forall p <- payloads :: |p| + 2 < TWO_16
  {
    if payloads == [] then [] else Frame(payloads[0]) + Frames(payloads[1..])
  }

  /** A frame is read back, and exactly its bytes are used up, if and only if it has a payload that fits. */
  lemma FrameRoundTrip(payload: seq<byte>, rest: seq<byte>, bufferSize: nat)
    requires |payload| + 2 < TWO_16
    ensures Receive(Frame(payload) + rest, bufferSize) == (Payload(payload), rest) <==>
            0 < |payload| <= bufferSize
    ensures !(0 < |payload| <= bufferSize) ==>
              Receive(Frame(payload) + rest, bufferSize).0 == if |payload| == 0 then Closed else Failed
  {
    var stream := Frame(payload) + rest;
    assert stream[2..] == payload + rest;
    assert FrameLength(stream[0], stream[1]) == |payload| + 2;
  }

  /** A length that does not even count itself is an error; nothing behind it is read. */
  lemma TooShortLength(low: byte, rest: seq<byte>, bufferSize: nat)
    requires low < 2
    ensures Receive([0, low] + rest, bufferSize) == (Failed, rest)
  {
    assert ([0, low] + rest)[2..] == rest;
  }

  /**
   A connection that ends before a frame is complete never yields a payload: it reads as
   closed if it ends before the frame or right behind its length, and as an error otherwise.
   */
  lemma TornFrame(payload: seq<byte>, n: nat, bufferSize: nat)
    requires 0 < |payload| <= bufferSize && |payload| + 2 < TWO_16 && n < |Frame(payload)|
    ensures Receive(Frame(payload)[..n], bufferSize).0 == if n == 0 || n == 2 then Closed else Failed
  {
    var torn := Frame(payload)[..n];
    if n >= 2 {
      assert FrameLength(torn[0], torn[1]) == |payload| + 2;
      assert torn[2..] == payload[..n - 2];
    }
  }

  /** Receiving from a stream that starts with a frame: its payload and the rest, if it fits. */
  lemma FirstFrame(first: seq<byte>, rest: seq<byte>, bufferSize: nat)
    requires |first| + 2 < TWO_16
    ensures ReceiveAll(Frame(first) + rest, bufferSize) ==
            if 0 < |first| <= bufferSize then [first] + ReceiveAll(rest, bufferSize) else []
  {
    hide Receive, Frame;
    FrameRoundTrip(first, rest, bufferSize);
  }

  lemma ConsEqual(first: seq<byte>, a: seq<seq<byte>>, b: seq<seq<byte>>)
    ensures [first] + a == [first] + b <==> a == b
  {
    assert ([first] + a)[1..] == a && ([first] + b)[1..] == b;
  }

  lemma FitCons(first: seq<byte>, rest: seq<seq<byte>>, bufferSize: nat)
    ensures (forall p <- [first] + rest :: 0 < |p| <= bufferSize) <==>
            0 < |first| <= bufferSize && forall p <- rest :: 0 < |p| <= bufferSize
  {
    assert first in [first] + rest && forall p <- rest :: p in [first] + rest;
  }

  lemma FramesCons(first: seq<byte>, rest: seq<seq<byte>>)
    requires |first| + 2 < TWO_16 && forall p <- rest :: |p| + 2 < TWO_16
    ensures Frames([first] + rest) == Frame(first) + Frames(rest)
  {
    assert ([first] + rest)[1..] == rest;
  }

  lemma StreamStep(first: seq<byte>, rest: seq<seq<byte>>, bufferSize: nat)
    requires |first| + 2 < TWO_16 && forall p <- rest :: |p| + 2 < TWO_16
    requires ReceiveAll(Frames(rest), bufferSize) == rest <==> forall p <- rest :: 0 < |p| <= bufferSize
    ensures ReceiveAll(Frames([first] + rest), bufferSize) == [first] + rest <==>
            forall p <- [first] + rest :: 0 < |p| <= bufferSize
  {
    hide ReceiveAll, Frame, Frames;
    FramesCons(first, rest);
    FirstFrame(first, Frames(rest), bufferSize);
    ConsEqual(first, ReceiveAll(Frames(rest), bufferSize), rest);
    FitCons(first, rest, bufferSize);
  }

  /**
   Receiving recovers the list of payloads, in order and none merged or split, if and only
   if every one is non-empty and fits the buffer: an empty one reads as a closed connection.
   */
  lemma {:induction false} StreamRoundTrip(payloads: seq<seq<byte>>, bufferSize: nat)
    requires forall p <- payloads :: |p| + 2 < TWO_16
    ensures ReceiveAll(Frames(payloads), bufferSize) == payloads <==>
            forall p <- payloads :: 0 < |p| <= bufferSize
    decreases |payloads|
  {
    if payloads != [] {
      var first, rest := payloads[0], payloads[1..];
      StreamRoundTrip(rest, bufferSize);
      StreamStep(first, rest, bufferSize);
      assert payloads == [first] + rest;
    }
  }

  lemma FramesConcat(first: seq<byte>, rest: seq<seq<byte>>, tail: seq<byte>)
    requires |first| + 2 < TWO_16 && forall p <- rest :: |p| + 2 < TWO_16
    ensures Frames([first] + rest) + tail == Frame(first) + (Frames(rest) + tail)
  {
    FramesCons(first, rest);
  }

  /**
   When the connection ends inside a frame, the payloads before it are received, and
   nothing of the torn one is handed on.
   */
  lemma {:induction false} TornStream(payloads: seq<seq<byte>>, last: seq<byte>, n: nat, bufferSize: nat)
    requires forall p <- payloads + [last] :: 0 < |p| <= bufferSize && |p| + 2 < TWO_16
    requires last in payloads + [last] && n < |Frame(last)|
    ensures forall p <- payloads :: |p| + 2 < TWO_16
    ensures ReceiveAll(Frames(payloads) + Frame(last)[..n], bufferSize) == payloads
    decreases |payloads|
  {
    var torn := Frame(last)[..n];
    if payloads == [] {
      TornFrame(last, n, bufferSize);
      assert Frames(payloads) + torn == torn;
    } else {
      var first, rest := payloads[0], payloads[1..];
      assert payloads + [last] == [first] + (rest + [last]);
      TornStream(rest, last, n, bufferSize);
      FramesConcat(first, rest, torn);
      FirstFrame(first, Frames(rest) + torn, bufferSize);
      assert payloads == [first] + rest;
    }
  }

  /** `sendPDU`: what is written to the socket, and the result when all of it is sent. */
  method SendPDU(dataBuffer: array<byte>, lengthOfData: nat) returns (r: int, written: seq<byte>)
    requires lengthOfData <= dataBuffer.Length && lengthOfData + 2 < TWO_16
    ensures r == lengthOfData && written == Frame(dataBuffer[..lengthOfData])
  {
    var length: u16 := lengthOfData + 2;
    var pduBuff := new byte[length];
    pduBuff[0], pduBuff[1] := length / 0x100, length % 0x100;
    forall i | 0 <= i < lengthOfData { pduBuff[2 + i] := dataBuffer[i]; }
    assert pduBuff[..] == [pduBuff[0], pduBuff[1]] + dataBuffer[..lengthOfData];
    written := pduBuff[..];
    r := |written| - 2;
  }

  /** `recvPDU`: `MSG_WAITALL` delivers the bytes asked for, or all there are before the end. */
  method RecvPDU(stream: seq<byte>, dataBuffer: array<byte>, bufferSize: nat)
    returns (r: int, left: seq<byte>)
    requires bufferSize <= dataBuffer.Length
    modifies dataBuffer
    ensures match Receive(stream, bufferSize).0
            case Failed => r == -1
            case Closed => r == 0 && dataBuffer[..] == old(dataBuffer[..])
            case Payload(data) =>
              r == |data| > 0 && dataBuffer[..r] == data && dataBuffer[r..] == old(dataBuffer[r..])
    ensures left == Receive(stream, bufferSize).1
  {
    var bytesReceived := if |stream| < 2 then |stream| else 2;
    left := stream[bytesReceived..];
    if bytesReceived == 0 {
      return 0, left;
    } else if bytesReceived != 2 {
      return -1, left;
    }
    var length := FrameLength(stream[0], stream[1]);
    var payloadLength := length - 2;
    if length < 2 || payloadLength > bufferSize {
      return -1, left;
    }
    bytesReceived := if payloadLength <= |left| then payloadLength else |left|;
    forall i | 0 <= i < bytesReceived { dataBuffer[i] := left[i]; }
    if bytesReceived == 0 {
      return 0, left;
    } else if bytesReceived != payloadLength {
      return -1, left[bytesReceived..];
    }
    r := bytesReceived;
    left := left[bytesReceived..];
  }
}
