/**
 The packet codec of `srej.c`: a 7-byte header (sequence number in network order, the
 checksum in the sender's own byte order, flag) followed by the payload.
 */
module Srej {
  import opened Bytes
  import opened Checksum

  const HEADER_LEN := 7
  const MAX_PACK_LEN := 1500
  const CRC_ERROR := -1

  const ACK_RR: byte := 5
  const SREJ: byte := 6
  const END_OF_FILE: byte := 10
  const DATA: byte := 16
  const SREJ_DATA: byte := 17
  const TIMEOUT_DATA: byte := 18
  const EOF_ACK: byte := 33

  datatype Packet = Packet(flag: byte, seqNum: u32, payload: seq<byte>)

  /** What `recvBuff` hands to its caller. */
  datatype Received = CrcError | Got(packet: Packet)

  /** A 16-bit value copied to memory as its host stores it. */
  function Native16(host: Host, n: u16): (s: seq<byte>)
    ensures |s| == 2
  {
    match host
    case LittleEndian => [n % 0x100, n / 0x100]
    case BigEndian => [n / 0x100, n % 0x100]
  }

  /** Header and payload with the given two bytes in the checksum field. */
  function Layout(p: Packet, checksum: seq<byte>): (w: seq<byte>)
    requires |checksum| == 2
    ensures |w| == HEADER_LEN + |p.payload|
  {
    Be32(p.seqNum) + checksum + [p.flag] + p.payload
  }

  lemma LayoutFromParts(w: seq<byte>, p: Packet, checksum: seq<byte>)
    requires |w| == HEADER_LEN + |p.payload| && |checksum| == 2
    requires w[..4] == Be32(p.seqNum) && w[4] == checksum[0] && w[5] == checksum[1]
    requires w[6] == p.flag && w[HEADER_LEN..] == p.payload
    ensures w == Layout(p, checksum)
  {
    assert w == w[..4] + [w[4], w[5]] + [w[6]] + w[HEADER_LEN..];
    assert checksum == [checksum[0], checksum[1]];
  }

  /** The bytes a host puts on the wire. */
  function Encode(host: Host, p: Packet): (w: seq<byte>)
    ensures |w| == HEADER_LEN + |p.payload|
  {
    Layout(p, Native16(host, Cksum(host, Layout(p, [0, 0]))))
  }

  /** What a host makes of the bytes it received. */
  function Decode(host: Host, w: seq<byte>): Received
    requires |w| >= HEADER_LEN
  {
    if Cksum(host, w) != 0 then CrcError
    else Got(Packet(w[6], FromBe32(w[..4]), w[HEADER_LEN..]))
  }

  // ----- round trip

  lemma LayoutWordSum(host: Host, p: Packet, checksum: u16)
    ensures WordSum(host, Layout(p, Native16(host, checksum)))
         == WordSum(host, Layout(p, [0, 0])) + checksum
  {
    var number, tail := Be32(p.seqNum), [p.flag] + p.payload;
    forall field: seq<byte> | |field| == 2
      ensures WordSum(host, Layout(p, field))
           == WordSum(host, number) + WordSum(host, field) + WordSum(host, tail)
    {
      assert Layout(p, field) == (number + field) + tail;
      WordSumConcat(host, number + field, tail);
      WordSumConcat(host, number, field);
    }
    assert WordSum(host, [0, 0]) == 0;
    var field := Native16(host, checksum);
    assert WordSum(host, field) == Word(host, field[0], field[1]) == checksum;
  }

  lemma EncodedChecksumHolds(host: Host, p: Packet)
    ensures Cksum(host, Encode(host, p)) == 0
  {
    var blank := Layout(p, [0, 0]);
    LayoutWordSum(host, p, Cksum(host, blank));
    OnesSumFolds(host, blank);
    ZeroChecksum(host, Encode(host, p));
  }

  /** The checksum bytes do not depend on the sender's byte order, so nor does the packet. */
  lemma EncodeIsHostIndependent(p: Packet)
    ensures Encode(BigEndian, p) == Encode(LittleEndian, p)
  {
    hide Cksum, Layout, Swap16, Native16;
    var blank := Layout(p, [0, 0]);
    ByteOrderIndependence(blank);
    SwappedBytesAgree(Cksum(LittleEndian, blank));
  }

  lemma SwappedBytesAgree(n: u16)
    ensures Native16(BigEndian, Swap16(n)) == Native16(LittleEndian, n)
  {
    Halves(Swap16(n), n % 0x100, n / 0x100);
  }

  /** A packet built on one host is accepted, and read back exactly, on any other. */
  lemma HeaderRoundTrip(sender: Host, receiver: Host, p: Packet)
    ensures Decode(receiver, Encode(sender, p)) == Got(p)
  {
    EncodeIsHostIndependent(p);
    EncodedChecksumHolds(receiver, p);
    var w := Encode(receiver, p);
    assert w[..4] == Be32(p.seqNum);
    FromBe32Inverts(p.seqNum);
    assert w[HEADER_LEN..] == p.payload;
  }

  /** Different packets have different wire bytes. */
  lemma EncodeInjective(host: Host, p: Packet, q: Packet)
    requires Encode(host, p) == Encode(host, q)
    ensures p == q
  {
    HeaderRoundTrip(host, host, p);
    HeaderRoundTrip(host, host, q);
  }

  /** Changing any one byte of an accepted packet makes the receiver reject it. */
  lemma CorruptionRejected(host: Host, w: seq<byte>, i: nat, b: byte)
    requires |w| >= HEADER_LEN && i < |w| && b != w[i]
    requires Decode(host, w).Got?
    ensures Decode(host, w[i := b]) == CrcError
  {
    SingleByteChangeCaught(host, w, i, b);
  }

  /** The one's complement sum of four words. */
  lemma SumOfWords(a: byte, b: byte, c: byte, d: byte, e: byte, f: byte, g: byte, h: byte)
    ensures OnesSum(BigEndian, [a, b, c, d, e, f, g, h])
         == OnesAdd(0x100 * a + b, OnesAdd(0x100 * c + d, OnesAdd(0x100 * e + f, OnesAdd(0x100 * g + h, 0))))
  {
    hide OnesAdd;
    var s := [a, b, c, d, e, f, g, h];
    assert s[2..] == [c, d, e, f, g, h] && [c, d, e, f, g, h][2..] == [e, f, g, h];
    assert [e, f, g, h][2..] == [g, h] && [g, h][2..] == [];
    assert OnesSum(BigEndian, [g, h]) == OnesAdd(0x100 * g + h, OnesSum(BigEndian, []));
    assert OnesSum(BigEndian, [e, f, g, h]) == OnesAdd(0x100 * e + f, OnesSum(BigEndian, [g, h]));
    assert OnesSum(BigEndian, [c, d, e, f, g, h]) == OnesAdd(0x100 * c + d, OnesSum(BigEndian, [e, f, g, h]));
  }

  /**
   The wire bytes of one packet, DATA number 0x01020304 with the byte 5, on either kind of
   host: number, checksum, flag, payload. The words 0102, 0304, 1005 sum to 140b.
   */
  lemma WireBytes(host: Host)
    ensures Encode(host, Packet(DATA, 0x0102_0304, [5])) == [1, 2, 3, 4, 0xeb, 0xf4, 0x10, 5]
  {
    hide OnesSum;
    var p := Packet(DATA, 0x0102_0304, [5]);
    EncodeIsHostIndependent(p);
    assert Layout(p, [0, 0]) == [1, 2, 3, 4, 0, 0, 0x10, 5];
    SumOfWords(1, 2, 3, 4, 0, 0, 0x10, 5);
  }

  /** The seventh byte of a packet tells its kind. */
  lemma FlagBytes(host: Host, p: Packet)
    ensures Encode(host, p)[6] == p.flag
    ensures p.flag == ACK_RR ==> Encode(host, p)[6] == 5
    ensures p.flag == SREJ ==> Encode(host, p)[6] == 6
    ensures p.flag == END_OF_FILE ==> Encode(host, p)[6] == 10
    ensures p.flag == DATA ==> Encode(host, p)[6] == 16
    ensures p.flag == SREJ_DATA ==> Encode(host, p)[6] == 17
    ensures p.flag == TIMEOUT_DATA ==> Encode(host, p)[6] == 18
    ensures p.flag == EOF_ACK ==> Encode(host, p)[6] == 33
  {
  }

  // ----- the routines, over the caller's buffers

  /** `createHeader`: completes a packet whose payload is already in place. */
  method CreateHeader(host: Host, len: nat, flag: byte, seqNum: u32, packet: array<byte>)
    returns (sendingLen: nat)
    requires HEADER_LEN + len <= packet.Length && HEADER_LEN + len <= TWO_16
    modifies packet
    ensures sendingLen == HEADER_LEN + len
    ensures packet[..sendingLen]
         == Encode(host, Packet(flag, seqNum, old(packet[HEADER_LEN..HEADER_LEN + len])))
    ensures packet[sendingLen..] == old(packet[sendingLen..])
  {
    hide Cksum, Layout, Be32, Native16;
    ghost var p := Packet(flag, seqNum, packet[HEADER_LEN..HEADER_LEN + len]);
    var number := Be32(seqNum);
    forall i | 0 <= i < 4 { packet[i] := number[i]; }
    packet[6] := flag;
    packet[4], packet[5] := 0, 0;
    LayoutFromParts(packet[..HEADER_LEN + len], p, [0, 0]);
    var chksum := InCksum(host, packet, HEADER_LEN + len);
    assert chksum == Cksum(host, Layout(p, [0, 0]));
    var field := Native16(host, chksum);
    packet[4], packet[5] := field[0], field[1];
    LayoutFromParts(packet[..HEADER_LEN + len], p, field);
    sendingLen := HEADER_LEN + len;
  }

  /**
   `retrieveHeader`: the payload length, or CRC_ERROR. The header fields are read from
   the buffer even when fewer than seven bytes arrived.
   */
  method RetrieveHeader(host: Host, dataBuff: array<byte>, recvLen: nat)
    returns (retVal: int, flag: byte, seqNum: u32)
    requires HEADER_LEN <= dataBuff.Length && recvLen <= dataBuff.Length <= TWO_16
    ensures Cksum(host, dataBuff[..recvLen]) != 0 ==> retVal == CRC_ERROR
    ensures Cksum(host, dataBuff[..recvLen]) == 0 ==> retVal == recvLen - HEADER_LEN
    ensures recvLen >= HEADER_LEN ==>
              match Decode(host, dataBuff[..recvLen])
              case CrcError => retVal == CRC_ERROR
              case Got(p) => retVal == |p.payload| && flag == p.flag && seqNum == p.seqNum
  {
    var check := InCksum(host, dataBuff, recvLen);
    if check != 0 {
      return CRC_ERROR, 0, 0;
    }
    flag := dataBuff[6];
    seqNum := FromBe32(dataBuff[..4]);
    retVal := recvLen - HEADER_LEN;
    assert recvLen >= HEADER_LEN ==> dataBuff[..recvLen][..4] == dataBuff[..4];
  }

  /**
   The part of `sendBuff` before the socket call: the bytes handed to `sendtoErr`. The
   end-of-file acknowledgement passes one buffer in both roles.
   */
  method SendBuff(host: Host, buff: array<byte>, len: nat, flag: byte, seqNum: u32, packet: array<byte>)
    returns (sendingLen: nat)
    requires len <= buff.Length && HEADER_LEN + len <= packet.Length <= TWO_16
    requires buff != packet || len <= HEADER_LEN
    modifies packet
    ensures sendingLen == HEADER_LEN + len
    ensures packet[..sendingLen] == Encode(host, Packet(flag, seqNum, old(buff[..len])))
    ensures packet[sendingLen..] == old(packet[sendingLen..])
  {
    ghost var payload := buff[..len];
    if len > 0 {
      forall i | 0 <= i < len { packet[HEADER_LEN + i] := buff[i]; }
    }
    assert packet[HEADER_LEN..HEADER_LEN + len] == payload;
    assert packet[HEADER_LEN + len..] == old(packet[HEADER_LEN + len..]);
    sendingLen := CreateHeader(host, len, flag, seqNum, packet);
  }

  /**
   `recvBuff`: decode a datagram and copy its payload out. A datagram shorter than a
   header yields a negative length, so nothing is copied.
   */
  method RecvBuff(host: Host, datagram: seq<byte>, buff: array<byte>)
    returns (dataLen: int, flag: byte, seqNum: u32)
    requires |datagram| <= MAX_PACK_LEN && |datagram| - HEADER_LEN <= buff.Length
    modifies buff
    ensures |datagram| < HEADER_LEN ==> dataLen < 0 && buff[..] == old(buff[..])
    ensures |datagram| >= HEADER_LEN ==>
              match Decode(host, datagram)
              case CrcError => dataLen == CRC_ERROR && buff[..] == old(buff[..])
              case Got(p) =>
                && dataLen == |p.payload| && flag == p.flag && seqNum == p.seqNum
                && buff[..dataLen] == p.payload
                && buff[dataLen..] == old(buff[dataLen..])
  {
    var dataBuff := new byte[MAX_PACK_LEN];
    forall i | 0 <= i < |datagram| { dataBuff[i] := datagram[i]; }
    assert dataBuff[..|datagram|] == datagram;
    dataLen, flag, seqNum := RetrieveHeader(host, dataBuff, |datagram|);
    if dataLen > 0 {
      forall i | 0 <= i < dataLen { buff[i] := dataBuff[HEADER_LEN + i]; }
    }
  }
}
