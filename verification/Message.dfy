/**
 The chat message packet of `shared.c`, and the two walks over it: the server's over the
 destinations (`server.c`) and the client's to the text (`cclient.c`). C strings are
 sequences of bytes without their terminating zero.
 */
module Message {
  import opened Bytes

  const MAX_HANDLE_LENGTH := 100
  const MAX_MESSAGE_LENGTH := 200
  const MAX_DEST_HANDLES := 9
  const MAXBUF := 1024

  const BROADCAST: byte := 4
  const MESSAGE: byte := 5
  const MULTICAST: byte := 6

  datatype Msg = Msg(flag: byte, src: seq<byte>, dests: seq<seq<byte>>, text: seq<byte>)

  predicate HasDests(flag: byte) {
    flag == MESSAGE || flag == MULTICAST
  }

  /** The arrays the handles come from have room for MAX_HANDLE_LENGTH characters and a zero. */
  predicate FromArrays(m: Msg) {
    |m.src| <= MAX_HANDLE_LENGTH && forall d <- m.dests :: |d| <= MAX_HANDLE_LENGTH
  }

  /** A message whose packet can be written down. */
  predicate FitsArrays(m: Msg) {
    FromArrays(m) && (HasDests(m.flag) ==> |m.dests| <= MAX_DEST_HANDLES)
  }

  /** What `buildMsgPacket` checks before it writes anything. */
  predicate Checked(m: Msg) {
    && 0 < |m.src| < MAX_HANDLE_LENGTH
    && (m.flag == MESSAGE ==> |m.dests| == 1)
    && (m.flag == MULTICAST ==> 2 <= |m.dests| <= MAX_DEST_HANDLES)
    && |m.text| + 1 < MAX_MESSAGE_LENGTH
  }

  /** What `buildMsgPacket` accepts. */
  predicate Buildable(m: Msg) {
    Checked(m) && (HasDests(m.flag) ==> forall d <- m.dests :: |d| < MAX_HANDLE_LENGTH)
  }

  /** A destination behind its length. */
  function Item(dest: seq<byte>): seq<byte>
    requires |dest| <= MAX_HANDLE_LENGTH
  {
    [|dest|] + dest
  }

  function Items(dests: seq<seq<byte>>): (items: seq<seq<byte>>)
    requires forall d <- dests :: |d| <= MAX_HANDLE_LENGTH
  {
    seq(|dests|, i requires 0 <= i < |dests| => Item(dests[i]))
  }

  function DestBytes(dests: seq<seq<byte>>): seq<byte>
    requires forall d <- dests :: |d| <= MAX_HANDLE_LENGTH
  {
    Flatten(Items(dests))
  }

  /** Everything before the text. */
  function Head(m: Msg): seq<byte>
    requires FitsArrays(m)
  {
    [m.flag, |m.src|] + m.src + if HasDests(m.flag) then [|m.dests|] + DestBytes(m.dests) else []
  }

  function MsgBytes(m: Msg): seq<byte>
    requires FitsArrays(m)
  {
    Head(m) + m.text + [0]
  }

  lemma DestBytesCons(dests: seq<seq<byte>>)
    requires dests != [] && forall d <- dests :: |d| <= MAX_HANDLE_LENGTH
    ensures DestBytes(dests) == Item(dests[0]) + DestBytes(dests[1..])
  {
    assert Items(dests) == [Item(dests[0])] + Items(dests[1..]);
    FlattenCons(Item(dests[0]), Items(dests[1..]));
  }

  lemma NoDestBytes()
    ensures DestBytes([]) == []
  {
  }

  lemma DestBytesGrow(before: seq<byte>, dests: seq<seq<byte>>, i: nat)
    requires i < |dests| && forall d <- dests :: |d| <= MAX_HANDLE_LENGTH
    ensures before + DestBytes(dests[..i + 1]) == before + DestBytes(dests[..i]) + Item(dests[i])
    ensures |DestBytes(dests[..i])| + 1 + |dests[i]| == |DestBytes(dests[..i + 1])| <= |DestBytes(dests)|
  {
    assert Items(dests[..i + 1]) == Items(dests[..i]) + [Item(dests[i])];
    FlattenSnoc(Items(dests[..i]), Item(dests[i]));
    assert Items(dests[..i + 1]) == Items(dests)[..i + 1];
    FlattenPrefix(Items(dests), i + 1);
    assert before + (DestBytes(dests[..i]) + Item(dests[i])) == before + DestBytes(dests[..i]) + Item(dests[i]);
  }

  /** `memcpy` into the packet at the running index, which moves past the bytes. */
  method Append(packet: array<byte>, idx: nat, bytes: seq<byte>) returns (next: nat)
    requires idx + |bytes| <= packet.Length
    modifies packet
    ensures next == idx + |bytes|
    ensures packet[..next] == old(packet[..idx]) + bytes
    ensures forall k :: next <= k < packet.Length ==> packet[k] == old(packet[k])
  {
    forall i | 0 <= i < |bytes| { packet[idx + i] := bytes[i]; }
    next := idx + |bytes|;
  }

  /** A string behind its length. */
  method AddString(packet: array<byte>, idx: nat, s: seq<byte>) returns (next: nat)
    requires |s| <= MAX_HANDLE_LENGTH && idx + 1 + |s| <= packet.Length
    modifies packet
    ensures next == idx + 1 + |s|
    ensures packet[..next] == old(packet[..idx]) + Item(s)
    ensures forall k :: next <= k < packet.Length ==> packet[k] == old(packet[k])
  {
    next := Append(packet, idx, [|s|]);
    next := Append(packet, next, s);
    assert packet[..next] == old(packet[..idx]) + [|s|] + s;
  }

  /** The loop of `buildMsgPacket` over the destinations: the index after them, or -1. */
  method AddDests(packet: array<byte>, start: nat, dests: seq<seq<byte>>) returns (r: int)
    requires forall d <- dests :: |d| <= MAX_HANDLE_LENGTH
    requires start + |DestBytes(dests)| <= packet.Length
    modifies packet
    ensures r == -1 <==> exists d <- dests :: |d| >= MAX_HANDLE_LENGTH
    ensures r != -1 ==>
              && r == start + |DestBytes(dests)|
              && packet[..r] == old(packet[..start]) + DestBytes(dests)
              && forall k :: r <= k < packet.Length ==> packet[k] == old(packet[k])
  {
    hide DestBytes, Item;
    ghost var before := packet[..start];
    var idx := start;
    var i := 0;
    NoDestBytes();
    assert dests[..0] == [] && before + [] == before;
    while i < |dests|
      invariant 0 <= i <= |dests|
      invariant idx == start + |DestBytes(dests[..i])| <= packet.Length
      invariant packet[..idx] == before + DestBytes(dests[..i])
      invariant forall k :: idx <= k < packet.Length ==> packet[k] == old(packet[k])
      invariant forall k :: 0 <= k < i ==> |dests[k]| < MAX_HANDLE_LENGTH
    {
      if |dests[i]| >= MAX_HANDLE_LENGTH {
        assert dests[i] in dests;
        return -1;
      }
      DestBytesGrow(before, dests, i);
      idx := AddString(packet, idx, dests[i]);
      i := i + 1;
    }
    assert dests[..i] == dests;
    r := idx;
  }

  lemma HeadParts(m: Msg)
    requires FitsArrays(m)
    ensures var start := [m.flag, |m.src|] + m.src;
            Head(m) == if HasDests(m.flag) then start + [|m.dests|] + DestBytes(m.dests) else start
  {
    var start := [m.flag, |m.src|] + m.src;
    assert start + [|m.dests|] + DestBytes(m.dests) == start + ([|m.dests|] + DestBytes(m.dests));
  }

  /** The part of `buildMsgPacket` that writes: -1 when a destination's handle is too long. */
  method WriteMsg(packet: array<byte>, m: Msg) returns (r: int)
    requires FitsArrays(m) && |MsgBytes(m)| <= packet.Length
    modifies packet
    ensures r == -1 <==> HasDests(m.flag) && exists d <- m.dests :: |d| >= MAX_HANDLE_LENGTH
    ensures r != -1 ==>
              && r == |MsgBytes(m)| && packet[..r] == MsgBytes(m)
              && forall k :: r <= k < packet.Length ==> packet[k] == old(packet[k])
  {
    ghost var start := [m.flag, |m.src|] + m.src;
    var idx := Append(packet, 0, [m.flag]);
    idx := AddString(packet, idx, m.src);
    assert packet[..idx] == start;
    if HasDests(m.flag) {
      idx := Append(packet, idx, [|m.dests|]);
      var after := AddDests(packet, idx, m.dests);
      if after < 0 {
        return -1;
      }
      idx := after;
    }
    HeadParts(m);
    assert packet[..idx] == Head(m);
    r := Append(packet, idx, m.text + [0]);
    assert Head(m) + (m.text + [0]) == MsgBytes(m);
  }

  /**
   `buildMsgPacket`: it fails exactly on what is not buildable, however many destinations
   and however long a text it is given, and otherwise leaves the packet's bytes and returns
   their number. Room for the packet is needed only when it starts to write.
   */
  method BuildMsgPacket(packet: array<byte>, m: Msg) returns (r: int)
    requires FromArrays(m) && (Checked(m) ==> |MsgBytes(m)| <= packet.Length)
    modifies packet
    ensures r == if Buildable(m) then |MsgBytes(m)| else -1
    ensures 1 <= |m.src| <= 99 && (forall d <- m.dests :: |d| <= 99) && |m.text| <= 198 ==>
              && (m.flag == 5 ==> (r >= 0 <==> |m.dests| == 1))
              && (m.flag == 6 ==> (r >= 0 <==> 2 <= |m.dests| <= 9))
              && (m.flag == 4 ==> r >= 0)
    ensures r >= 0 ==> 1 <= |m.src| <= 99 && |m.text| <= 198
    ensures !Checked(m) ==> packet[..] == old(packet[..])
    ensures r >= 0 ==>
              && packet[..r] == MsgBytes(m)
              && forall k :: r <= k < packet.Length ==> packet[k] == old(packet[k])
  {
    if |m.src| == 0 || |m.src| >= MAX_HANDLE_LENGTH {
      return -1;
    }
    if (m.flag == MESSAGE && |m.dests| != 1)
       || (m.flag == MULTICAST && (|m.dests| < 2 || |m.dests| > MAX_DEST_HANDLES)) {
      return -1;
    }
    if |m.text| + 1 >= MAX_MESSAGE_LENGTH {
      return -1;
    }
    r := WriteMsg(packet, m);
  }

  /**
   What may be sent, told by the numbers: handles of 1 to 99 bytes, a text of at most 198;
   one destination for a message, two to nine for a multicast, any number, unused, for a
   broadcast.
   */
  lemma SentIffCountFits(m: Msg)
    requires 1 <= |m.src| <= 99 && (forall d <- m.dests :: |d| <= 99) && |m.text| <= 198
    ensures m.flag == 5 ==> (Buildable(m) <==> |m.dests| == 1)
    ensures m.flag == 6 ==> (Buildable(m) <==> 2 <= |m.dests| <= 9)
    ensures m.flag == 4 ==> Buildable(m)
  {
  }

  /** Nothing else is sent. */
  lemma OnlyFittingAreSent(m: Msg)
    requires Buildable(m)
    ensures 1 <= |m.src| <= 99 && |m.text| <= 198
    ensures m.flag == 5 ==> |m.dests| == 1 && |m.dests[0]| <= 99
    ensures m.flag == 6 ==> 2 <= |m.dests| <= 9 && forall d <- m.dests :: |d| <= 99
  {
  }

  // ----- walking a received packet

  /** The most that `n` destinations can take up, each with its length byte. */
  function Room(n: nat): nat {
    101 * n
  }

  /**
   The handles the server's loop reads, for `n` destinations from `idx`: all of them, or
   those before a length that exceeds MAX_HANDLE_LENGTH, where it gives up.
   */
  function Walk(buffer: seq<byte>, idx: nat, n: nat): seq<seq<byte>>
    requires idx + Room(n) <= |buffer|
    decreases n
  {
    if n == 0 then []
    else
      var len := buffer[idx];
      if len > MAX_HANDLE_LENGTH then []
      else [buffer[idx + 1..idx + 1 + len]] + Walk(buffer, idx + len + 1, n - 1)
  }

  /** `getMsgIdx` past `n` destinations from `idx`; None when that leaves the buffer. */
  function Skip(buffer: seq<byte>, idx: nat, n: nat): Option<nat>
    decreases n
  {
    if n == 0 then Some(idx)
    else if idx >= |buffer| then None
    else Skip(buffer, idx + 1 + buffer[idx], n - 1)
  }

  function MsgIdx(buffer: seq<byte>, broadcast: bool): Option<nat>
    requires |buffer| >= 2
  {
    var idx: nat := 2 + buffer[1] as int;
    if broadcast then Some(idx)
    else if idx >= |buffer| then None
    else Skip(buffer, idx + 1, buffer[idx])
  }

  /** The string that starts a stretch of memory: the bytes before the first zero. */
  function CString(memory: seq<byte>): (s: seq<byte>)
    ensures s <= memory
  {
    if memory == [] || memory[0] == 0 then [] else [memory[0]] + CString(memory[1..])
  }

  predicate NoZero(s: seq<byte>) {
    0 !in s
  }

  lemma {:induction false} CStringEnds(s: seq<byte>, rest: seq<byte>)
    requires NoZero(s) && (rest == [] || rest[0] == 0)
    ensures CString(s + rest) == s
  {
    if s == [] {
      assert s + rest == rest;
    } else {
      assert (s + rest)[1..] == s[1..] + rest;
      CStringEnds(s[1..], rest);
    }
  }

  /** The first destination, where a packet's destinations start at `idx` of a buffer. */
  lemma FirstDest(buffer: seq<byte>, idx: nat, dests: seq<seq<byte>>)
    requires dests != [] && forall d <- dests :: |d| <= MAX_HANDLE_LENGTH
    requires idx <= |buffer| && DestBytes(dests) <= buffer[idx..]
    ensures var next := idx + 1 + |dests[0]|;
            && next <= |buffer| && buffer[idx] == |dests[0]| && buffer[idx + 1..next] == dests[0]
            && DestBytes(dests[1..]) <= buffer[next..]
            && |DestBytes(dests)| == 1 + |dests[0]| + |DestBytes(dests[1..])|
  {
    DestBytesCons(dests);
    PrefixParts(buffer, idx, Item(dests[0]), DestBytes(dests[1..]));
    assert buffer[idx + 1..idx + 1 + |dests[0]|] == buffer[idx..][..1 + |dests[0]|][1..];
  }

  lemma PrefixParts(buffer: seq<byte>, idx: nat, first: seq<byte>, rest: seq<byte>)
    requires idx <= |buffer| && first + rest <= buffer[idx..]
    ensures idx + |first| <= |buffer|
    ensures buffer[idx..][..|first|] == first && rest <= buffer[idx + |first|..]
  {
    var all := first + rest;
    assert buffer[idx..][..|all|] == all;
    assert buffer[idx..][..|first|] == all[..|first|];
    assert buffer[idx + |first|..][..|rest|] == all[|first|..];
  }

  lemma WalkOnce(buffer: seq<byte>, idx: nat, dests: seq<seq<byte>>)
    requires dests != [] && |dests[0]| <= MAX_HANDLE_LENGTH && idx + Room(|dests|) <= |buffer|
    requires buffer[idx] == |dests[0]| && buffer[idx + 1..idx + 1 + |dests[0]|] == dests[0]
    requires Walk(buffer, idx + 1 + |dests[0]|, |dests| - 1) == dests[1..]
    ensures Walk(buffer, idx, |dests|) == dests
  {
    assert dests == [dests[0]] + dests[1..];
  }

  /** The server reads back all destinations. */
  lemma {:induction false} WalkRecovers(buffer: seq<byte>, idx: nat, dests: seq<seq<byte>>)
    requires forall d <- dests :: |d| <= MAX_HANDLE_LENGTH
    requires idx + Room(|dests|) <= |buffer| && DestBytes(dests) <= buffer[idx..]
    ensures Walk(buffer, idx, |dests|) == dests
    decreases |dests|
  {
    hide DestBytes;
    if dests != [] {
      FirstDest(buffer, idx, dests);
      WalkRecovers(buffer, idx + 1 + |dests[0]|, dests[1..]);
      WalkOnce(buffer, idx, dests);
    }
  }

  /** The client skips all destinations. */
  lemma {:induction false} SkipPasses(buffer: seq<byte>, idx: nat, dests: seq<seq<byte>>)
    requires forall d <- dests :: |d| <= MAX_HANDLE_LENGTH
    requires idx <= |buffer| && DestBytes(dests) <= buffer[idx..]
    ensures Skip(buffer, idx, |dests|) == Some(idx + |DestBytes(dests)|)
    decreases |dests|
  {
    if dests != [] {
      FirstDest(buffer, idx, dests);
      SkipPasses(buffer, idx + 1 + |dests[0]|, dests[1..]);
    }
  }

  /** The packet stands at the start of the receiver's buffer. */
  predicate Received(buffer: seq<byte>, m: Msg) {
    |buffer| == MAXBUF && FitsArrays(m) && MsgBytes(m) <= buffer
  }

  lemma HeadFields(buffer: seq<byte>, m: Msg)
    requires Received(buffer, m)
    ensures buffer[0] == m.flag && buffer[1] == |m.src| && buffer[2..2 + |m.src|] == m.src
    ensures HasDests(m.flag) ==>
              buffer[2 + |m.src|] == |m.dests| && DestBytes(m.dests) <= buffer[3 + |m.src|..]
  {
    var w := MsgBytes(m);
    assert w[0] == m.flag && w[1] == |m.src| && w[2..2 + |m.src|] == m.src;
    assert buffer[2..2 + |m.src|] == w[2..2 + |m.src|];
    if HasDests(m.flag) {
      var k := 3 + |m.src|;
      assert w[k - 1] == |m.dests|;
      assert w[k..k + |DestBytes(m.dests)|] == DestBytes(m.dests);
      assert buffer[k..][..|DestBytes(m.dests)|] == w[k..k + |DestBytes(m.dests)|];
    }
  }

  lemma TextFollowsHead(buffer: seq<byte>, m: Msg)
    requires Received(buffer, m) && NoZero(m.text)
    ensures |Head(m)| <= |buffer| && CString(buffer[|Head(m)|..]) == m.text
  {
    var w := MsgBytes(m);
    var rest := [0] + buffer[|w|..];
    assert w == Head(m) + m.text + [0];
    assert buffer == w + buffer[|w|..];
    assert buffer == Head(m) + (m.text + rest);
    assert buffer[|Head(m)|..] == m.text + rest;
    CStringEnds(m.text, rest);
  }

  lemma HeadLength(m: Msg)
    requires FitsArrays(m)
    ensures |Head(m)| == 2 + |m.src| + if HasDests(m.flag) then 1 + |DestBytes(m.dests)| else 0
  {
  }

  lemma MsgIdxSkips(buffer: seq<byte>, srcLen: nat, n: nat)
    requires 2 + srcLen < |buffer| && buffer[1] == srcLen && buffer[2 + srcLen] == n
    ensures MsgIdx(buffer, false) == Skip(buffer, 3 + srcLen, n)
  {
  }

  lemma DestinationsReadBack(buffer: seq<byte>, m: Msg)
    requires Received(buffer, m) && HasDests(m.flag)
    ensures Walk(buffer, 3 + |m.src|, |m.dests|) == m.dests
    ensures MsgIdx(buffer, false) == Some(|Head(m)|)
  {
    hide Walk, Skip, MsgIdx, Head, MsgBytes, DestBytes;
    HeadFields(buffer, m);
    WalkRecovers(buffer, 3 + |m.src|, m.dests);
    SkipPasses(buffer, 3 + |m.src|, m.dests);
    MsgIdxSkips(buffer, |m.src|, |m.dests|);
    HeadLength(m);
  }

  /**
   Round trip: on a packet that fits the buffer, the server's walk recovers exactly the
   destinations, and the client's index lands on the first byte of the text.
   */
  lemma MessageRoundTrip(buffer: seq<byte>, m: Msg)
    requires Received(buffer, m) && (m.flag == BROADCAST || HasDests(m.flag))
    ensures HasDests(m.flag) ==> Walk(buffer, 3 + |m.src|, |m.dests|) == m.dests
    ensures MsgIdx(buffer, m.flag == BROADCAST) == Some(|Head(m)|)
    ensures |Head(m)| <= |buffer| && (NoZero(m.text) ==> CString(buffer[|Head(m)|..]) == m.text)
  {
    if HasDests(m.flag) {
      DestinationsReadBack(buffer, m);
    } else {
      HeadFields(buffer, m);
    }
    if NoZero(m.text) {
      TextFollowsHead(buffer, m);
    }
  }

  /** `getMsgIdx`, on a buffer that its walk does not leave. */
  method GetMsgIdx(buffer: array<byte>, broadcast: bool) returns (idx: nat)
    requires buffer.Length >= 2 && MsgIdx(buffer[..], broadcast).Some?
    ensures MsgIdx(buffer[..], broadcast) == Some(idx)
  {
    idx := 2 + buffer[1] as int;
    if broadcast {
      return;
    }
    var numDestHandles := buffer[idx];
    idx := idx + 1;
    for i := 0 to numDestHandles
      invariant Skip(buffer[..], idx, numDestHandles - i) == MsgIdx(buffer[..], broadcast)
    {
      var destHandleLen := buffer[idx];
      idx := idx + 1 + destHandleLen as int;
    }
  }

  /**
   `getHandleFromBuffer`: the sender's handle, or the first destination's. None stands for
   the exit on a length that is too great.
   */
  method GetHandleFromBuffer(buffer: array<byte>, whichHandle: bool) returns (handle: Option<seq<byte>>)
    requires buffer.Length == MAXBUF
    ensures var at: nat := if whichHandle then 3 + buffer[1] as int else 1;
            handle == if buffer[at] > MAX_HANDLE_LENGTH then None
                      else Some(buffer[at + 1..at + 1 + buffer[at]])
  {
    var srcHandleLen := buffer[1];
    if !whichHandle {
      if srcHandleLen > MAX_HANDLE_LENGTH {
        return None;
      }
      return Some(buffer[2..2 + srcHandleLen]);
    }
    var lenDestHandleIdx: nat := 3 + srcHandleLen as int;
    var destHandleLen := buffer[lenDestHandleIdx];
    if destHandleLen > MAX_HANDLE_LENGTH {
      return None;
    }
    handle := Some(buffer[lenDestHandleIdx + 1..lenDestHandleIdx + 1 + destHandleLen]);
  }

  /** Both kinds of handle are read back from a received packet. */
  lemma HandlesReadBack(buffer: seq<byte>, m: Msg)
    requires Received(buffer, m)
    ensures buffer[1] <= MAX_HANDLE_LENGTH && buffer[2..2 + buffer[1]] == m.src
    ensures HasDests(m.flag) && m.dests != [] ==>
              var at := 3 + |m.src|;
              buffer[at] == |m.dests[0]| && buffer[at + 1..at + 1 + buffer[at]] == m.dests[0]
  {
    HeadFields(buffer, m);
    if HasDests(m.flag) && m.dests != [] {
      FirstDest(buffer, 3 + |m.src|, m.dests);
    }
  }

  /**
   From the sender's strings to the receiver's: what the count and the lengths allow is
   built, fits, and is read back from any buffer it is received in.
   */
  lemma SentIsReadBack(buffer: seq<byte>, m: Msg)
    requires 1 <= |m.src| <= 99 && (forall d <- m.dests :: |d| <= 99) && |m.text| <= 198 && NoZero(m.text)
    requires m.flag == 4 || (m.flag == 5 && |m.dests| == 1) || (m.flag == 6 && 2 <= |m.dests| <= 9)
    requires |buffer| == MAXBUF && MsgBytes(m) <= buffer
    ensures Buildable(m)
    ensures buffer[0] == m.flag && buffer[1] == |m.src| && buffer[2..2 + |m.src|] == m.src
    ensures m.flag != 4 ==> buffer[2 + |m.src|] == |m.dests| && Walk(buffer, 3 + |m.src|, |m.dests|) == m.dests
    ensures var idx := MsgIdx(buffer, m.flag == 4);
            idx.Some? && idx.value <= |buffer| && CString(buffer[idx.value..]) == m.text
  {
    hide Walk, MsgIdx, DestBytes, MsgBytes, Head, CString;
    SentIffCountFits(m);
    HeadFields(buffer, m);
    MessageRoundTrip(buffer, m);
  }
}
