/**
 How the chat server of `server.c` passes messages on: the broadcast and multicast cases
 of `processClient`, when every `sendPDU` succeeds.
 */
module ChatServer {
  import opened Bytes
  import opened Message
  import opened HandleTable

  // ----- broadcast

  /** The entries that a broadcast of this client reaches, one copy each. */
  function Audience(table: seq<Entry>, client: nat): seq<Entry> {
    if table == [] then []
    else
      var last := table[|table| - 1];
      Audience(table[..|table| - 1], client) + if last.socket == client then [] else [last]
  }

  lemma AudienceStep(table: seq<Entry>, client: nat, i: nat)
    requires i < |table|
    ensures Audience(table[..i + 1], client)
         == Audience(table[..i], client) + if table[i].socket == client then [] else [table[i]]
  {
    assert table[..i + 1][..i] == table[..i];
  }

  lemma {:induction false} AudienceCounts(table: seq<Entry>, client: nat, e: Entry)
    requires Distinct(table)
    ensures multiset(Audience(table, client))[e] == if e in table && e.socket != client then 1 else 0
    decreases |table|
  {
    if table != [] {
      var init, last := table[..|table| - 1], table[|table| - 1];
      AudienceCounts(init, client, e);
      assert e in table <==> e in init || e == last;
      assert last !in init;
    }
  }

  /** The handles in the table on other sockets get exactly one copy; nobody else gets any. */
  lemma BroadcastReachesOthersOnce(ops: seq<TableOp>, client: nat)
    ensures var table := DoAll(ops);
            forall e: Entry :: multiset(Audience(table, client))[e] ==
              if e.handle in AsMap(table) && AsMap(table)[e.handle] == e.socket && e.socket != client
              then 1 else 0
  {
    var table := DoAll(ops);
    TableIsAMap(ops);
    MapHasEntries(table);
    forall e: Entry
      ensures multiset(Audience(table, client))[e] ==
              if e.handle in AsMap(table) && AsMap(table)[e.handle] == e.socket && e.socket != client
              then 1 else 0
    {
      AudienceCounts(table, client, e);
      if e.handle in AsMap(table) && AsMap(table)[e.handle] == e.socket {
        var f :| f in table && f.handle == e.handle;
        assert f == e;
      }
    }
  }

  /** The broadcast case: each listed handle is looked up again; the sender's sockets are skipped. */
  method Broadcast(table: HandleList, client: nat) returns (sent: seq<Entry>)
    requires table.Valid()
    ensures sent == Audience(table.View(), client)
  {
    var handleList := table.GetHandles();
    sent := [];
    for i := 0 to handleList.Length
      invariant forall k :: 0 <= k < handleList.Length ==> handleList[k] == table.View()[k].handle
      invariant sent == Audience(table.View()[..i], client)
    {
      LookupOwn(table.View(), i);
      AudienceStep(table.View(), client, i);
      var receiverSocket := table.LookupHandle(handleList[i]);
      if receiverSocket < 0 {
        continue;
      }
      if receiverSocket == client {
        continue;
      }
      sent := sent + [Entry(handleList[i], receiverSocket)];
    }
    assert table.View()[..handleList.Length] == table.View();
  }

  lemma LookupOwn(table: seq<Entry>, i: nat)
    requires Distinct(table) && i < |table|
    ensures Lookup(table, table[i].handle) == table[i].socket
  {
    MapHasEntries(table);
    LookupIsMapLookup(table, table[i].handle);
    assert table[i] in table;
  }

  // ----- multicast

  /** A copy of the packet for a socket, or an error packet that names a handle. */
  datatype Sent = Copy(socket: nat) | Missing(client: nat, named: Handle)

  /** What the server does for one destination. The error packet names the sender of the message. */
  function ForwardOne(table: seq<Entry>, client: nat, src: Handle, dest: Handle): seq<Sent> {
    var socket := Lookup(table, CString(dest));
    if socket >= 0 then [Copy(socket)]
    else if 0 < |CString(src)| < MAX_HANDLE_LENGTH then [Missing(client, CString(src))]
    else []
  }

  function ForwardAll(table: seq<Entry>, client: nat, src: Handle, dests: seq<Handle>): seq<Sent> {
    if dests == [] then []
    else ForwardOne(table, client, src, dests[0]) + ForwardAll(table, client, src, dests[1..])
  }

  /** Everything to be sent, when `sent` is out and `left` destinations from `idx` are still to be read. */
  ghost function Total(
      table: seq<Entry>, client: nat, src: Handle, buffer: seq<byte>, sent: seq<Sent>, idx: nat, left: nat): seq<Sent>
    requires idx + Room(left) <= |buffer|
  {
    sent + ForwardAll(table, client, src, Walk(buffer, idx, left))
  }

  lemma TotalStep(
      table: seq<Entry>, client: nat, src: Handle, buffer: seq<byte>, sent: seq<Sent>, idx: nat, left: nat,
      next: nat, forwarded: seq<Sent>)
    requires left > 0 && idx + Room(left) <= |buffer|
    requires buffer[idx] <= MAX_HANDLE_LENGTH && next == idx + 1 + buffer[idx] as int
    requires forwarded == ForwardOne(table, client, src, buffer[idx + 1..next])
    ensures next + Room(left - 1) <= |buffer|
    ensures Total(table, client, src, buffer, sent + forwarded, next, left - 1)
         == Total(table, client, src, buffer, sent, idx, left)
  {
    var dest, walk := buffer[idx + 1..next], Walk(buffer, next, left - 1);
    assert Walk(buffer, idx, left) == [dest] + walk;
    assert ([dest] + walk)[1..] == walk;
    var rest := ForwardAll(table, client, src, walk);
    assert sent + (forwarded + rest) == (sent + forwarded) + rest;
  }

  lemma TotalAtStart(table: seq<Entry>, client: nat, src: Handle, buffer: seq<byte>, idx: nat, left: nat)
    requires idx + Room(left) <= |buffer|
    ensures Total(table, client, src, buffer, [], idx, left) == ForwardAll(table, client, src, Walk(buffer, idx, left))
  {
  }

  lemma TotalAtEnd(
      table: seq<Entry>, client: nat, src: Handle, buffer: seq<byte>, sent: seq<Sent>, idx: nat, left: nat)
    requires idx + Room(left) <= |buffer|
    requires left == 0 || buffer[idx] > MAX_HANDLE_LENGTH
    ensures Total(table, client, src, buffer, sent, idx, left) == sent
  {
    assert sent + [] == sent;
  }

  /** One turn of the multicast loop, once the destination's handle has been read. */
  method Forward(table: HandleList, client: nat, srcHandle: Handle, destHandle: Handle) returns (sent: seq<Sent>)
    requires table.Valid()
    ensures sent == ForwardOne(table.View(), client, srcHandle, destHandle)
  {
    sent := [];
    var receiverSocket := table.LookupHandle(CString(destHandle));
    if receiverSocket < 0 {
      var missing := CString(srcHandle);
      if 0 < |missing| < MAX_HANDLE_LENGTH {
        sent := [Missing(client, missing)];
      }
    } else {
      sent := [Copy(receiverSocket)];
    }
  }

  /** The multicast loop over `n` destinations from `start`. */
  method ForwardEach(
      table: HandleList, client: nat, srcHandle: Handle, buffer: seq<byte>, start: nat, n: nat)
    returns (sent: seq<Sent>)
    requires table.Valid() && start + Room(n) <= |buffer|
    ensures sent == ForwardAll(table.View(), client, srcHandle, Walk(buffer, start, n))
  {
    hide Total, ForwardAll, ForwardOne, Walk, CString;
    ghost var view := table.View();
    TotalAtStart(view, client, srcHandle, buffer, start, n);
    sent := [];
    var idx: nat, i: nat := start, 0;
    ghost var left: nat := n;
    while i < n
      invariant left == n - i && idx + Room(left) <= |buffer|
      invariant Total(view, client, srcHandle, buffer, sent, idx, left)
             == Total(view, client, srcHandle, buffer, [], start, n)
    {
      var destHandleLen := buffer[idx];
      if destHandleLen > MAX_HANDLE_LENGTH {
        TotalAtEnd(view, client, srcHandle, buffer, sent, idx, left);
        return;
      }
      var next: nat := idx + 1 + destHandleLen as int;
      var forwarded := Forward(table, client, srcHandle, buffer[idx + 1..next]);
      TotalStep(view, client, srcHandle, buffer, sent, idx, left, next, forwarded);
      idx, left, sent := next, left - 1, sent + forwarded;
      i := i + 1;
    }
    TotalAtEnd(view, client, srcHandle, buffer, sent, idx, left);
  }

  /**
   The multicast case, for whatever bytes are in the buffer: it never reads outside it,
   and acts on the destinations in the order of the walk.
   */
  method Multicast(table: HandleList, buffer: seq<byte>, client: nat) returns (sent: seq<Sent>)
    requires table.Valid() && |buffer| == MAXBUF && buffer[1] <= MAX_HANDLE_LENGTH
    ensures var src := buffer[2..2 + buffer[1]];
            var n := buffer[2 + buffer[1] as int];
            sent == if n > MAX_DEST_HANDLES then []
                    else ForwardAll(table.View(), client, src, Walk(buffer, 3 + buffer[1] as int, n))
  {
    var handleLen := buffer[1];
    var numDestHandlesIdx: byte := 2 + handleLen;
    var numDestHandles := buffer[numDestHandlesIdx];
    if numDestHandles > MAX_DEST_HANDLES {
      return [];
    }
    var idx: nat := numDestHandlesIdx as int + 1;
    sent := ForwardEach(table, client, buffer[2..2 + handleLen], buffer, idx, numDestHandles);
  }

  /** The answer to one destination, told by the map. */
  function Answer(table: seq<Entry>, client: nat, src: Handle, dest: Handle): Sent {
    if dest in AsMap(table) then Copy(AsMap(table)[dest]) else Missing(client, src)
  }

  lemma ForwardOneAnswers(table: seq<Entry>, client: nat, src: Handle, dest: Handle)
    requires 0 < |src| < MAX_HANDLE_LENGTH && NoZero(src) && NoZero(dest)
    ensures ForwardOne(table, client, src, dest) == [Answer(table, client, src, dest)]
  {
    CStringEnds(src, []);
    CStringEnds(dest, []);
    assert src + [] == src && dest + [] == dest;
    LookupIsMapLookup(table, dest);
  }

  lemma {:induction false} ForwardInOrder(table: seq<Entry>, client: nat, src: Handle, dests: seq<Handle>)
    requires 0 < |src| < MAX_HANDLE_LENGTH && NoZero(src) && forall d <- dests :: NoZero(d)
    ensures var sent := ForwardAll(table, client, src, dests);
            |sent| == |dests| && forall i :: 0 <= i < |dests| ==> sent[i] == Answer(table, client, src, dests[i])
  {
    if dests != [] {
      ForwardOneAnswers(table, client, src, dests[0]);
      ForwardInOrder(table, client, src, dests[1..]);
    }
  }

  /**
   A multicast packet that a client built: for each destination, in order, the server
   sends one copy to its socket if the table has it, and otherwise an error to the client.
   */
  lemma MulticastReachesDestinations(table: seq<Entry>, client: nat, m: Msg, buffer: seq<byte>)
    requires Received(buffer, m) && Buildable(m) && m.flag == MULTICAST
    requires NoZero(m.src) && forall d <- m.dests :: NoZero(d)
    ensures var sent := ForwardAll(table, client, m.src, Walk(buffer, 3 + |m.src|, |m.dests|));
            && |sent| == |m.dests|
            && forall i :: 0 <= i < |m.dests| ==>
                 sent[i] == if m.dests[i] in AsMap(table) then Copy(AsMap(table)[m.dests[i]])
                            else Missing(client, m.src)
  {
    MessageRoundTrip(buffer, m);
    ForwardInOrder(table, client, m.src, m.dests);
  }

  /** In the answers to a whole multicast, every error packet names the destination that is missing. */
  predicate ErrorsNameMissing(table: seq<Entry>, client: nat, dests: seq<Handle>, sent: seq<Sent>) {
    && |sent| == |dests|
    && forall i :: 0 <= i < |dests| && dests[i] !in AsMap(table) ==> sent[i] == Missing(client, dests[i])
  }

  /**
   The errors of a whole multicast name the missing destinations if and only if the sender
   is the only handle that is missing; when the sender is in the table, if and only if
   there is no error at all.
   */
  lemma MulticastErrorNamesSender(table: seq<Entry>, client: nat, m: Msg, buffer: seq<byte>)
    requires Received(buffer, m) && Buildable(m) && m.flag == MULTICAST
    requires NoZero(m.src) && forall d <- m.dests :: NoZero(d)
    ensures var sent := ForwardAll(table, client, m.src, Walk(buffer, 3 + |m.src|, |m.dests|));
            && (ErrorsNameMissing(table, client, m.dests, sent) <==>
                  forall d <- m.dests :: d in AsMap(table) || d == m.src)
            && (m.src in AsMap(table) ==>
                  (ErrorsNameMissing(table, client, m.dests, sent) <==> forall s <- sent :: s.Copy?))
  {
    MulticastReachesDestinations(table, client, m, buffer);
    var sent := ForwardAll(table, client, m.src, Walk(buffer, 3 + |m.src|, |m.dests|));
    AnswersNameMissing(table, client, m.src, m.dests, sent);
  }

  lemma AnswersNameMissing(table: seq<Entry>, client: nat, src: Handle, dests: seq<Handle>, sent: seq<Sent>)
    requires |sent| == |dests|
    requires forall i :: 0 <= i < |dests| ==> sent[i] == Answer(table, client, src, dests[i])
    ensures ErrorsNameMissing(table, client, dests, sent) <==> forall d <- dests :: d in AsMap(table) || d == src
    ensures (forall s <- sent :: s.Copy?) <==> forall d <- dests :: d in AsMap(table)
  {
    assert forall i :: 0 <= i < |dests| ==> dests[i] in dests;
    forall d | d in dests && ErrorsNameMissing(table, client, dests, sent)
      ensures d in AsMap(table) || d == src
    {
      var i :| 0 <= i < |dests| && dests[i] == d;
      assert sent[i] == Answer(table, client, src, d);
    }
    forall d | d in dests && forall s <- sent :: s.Copy?
      ensures d in AsMap(table)
    {
      var i :| 0 <= i < |dests| && dests[i] == d;
      assert sent[i] in sent;
    }
    forall s | s in sent && forall d <- dests :: d in AsMap(table)
      ensures s.Copy?
    {
      var i :| 0 <= i < |sent| && sent[i] == s;
      assert dests[i] in dests;
    }
  }

  /** The message "a" sends to "b" and "c". */
  const TO_TWO := Msg(MULTICAST, [97], [[98], [99]], [])

  /** Its packet, in a buffer that is otherwise zero. */
  lemma ToTwoIsReceived() returns (buffer: seq<byte>)
    ensures Received(buffer, TO_TWO) && Buildable(TO_TWO)
  {
    var w := MsgBytes(TO_TWO);
    HeadLength(TO_TWO);
    DestBytesCons(TO_TWO.dests);
    DestBytesCons(TO_TWO.dests[1..]);
    buffer := w + seq(MAXBUF - |w|, _ => 0);
  }

  lemma OneRegistered(handle: Handle, socket: nat)
    ensures AsMap(DoAll([AddHandle(handle, socket)])) == map[handle := socket]
  {
    var ops := [AddHandle(handle, socket)];
    assert ops[..0] == [] && DoAll(ops) == Add([], handle, socket) == [Entry(handle, socket)] + [];
    assert ([Entry(handle, socket)] + [])[1..] == [];
  }

  /**
   Client 4 has registered as "a", and nobody else has; a packet arrives in which it
   multicasts to "b" and "c". Both error packets name "a".
   */
  lemma ErrorsNameOnlyTheSender() returns (buffer: seq<byte>)
    ensures Received(buffer, TO_TWO) && Buildable(TO_TWO)
    ensures var table := DoAll([AddHandle([97], 4)]);
            ForwardAll(table, 4, TO_TWO.src, Walk(buffer, 3 + |TO_TWO.src|, |TO_TWO.dests|))
            == [Missing(4, [97]), Missing(4, [97])]
  {
    hide Received, Walk, ForwardAll, AsMap, DoAll;
    buffer := ToTwoIsReceived();
    OneRegistered([97], 4);
    MulticastReachesDestinations(DoAll([AddHandle([97], 4)]), 4, TO_TWO, buffer);
  }

  // ----- one destination

  /** What the server sends for a message to one handle: a copy, or an error that names it. */
  function Direct(table: seq<Entry>, client: nat, dest: Handle): seq<Sent> {
    var name := CString(dest);
    var socket := Lookup(table, name);
    if socket >= 0 then [Copy(socket)]
    else if 0 < |name| < MAX_HANDLE_LENGTH then [Missing(client, name)]
    else []
  }

  /** The message case. None stands for the exit on a length that is too great. */
  method PrivateMessage(table: HandleList, buffer: array<byte>, client: nat) returns (sent: Option<seq<Sent>>)
    requires table.Valid() && buffer.Length == MAXBUF
    ensures var at: nat := 3 + buffer[1] as int;
            sent == if buffer[at] > MAX_HANDLE_LENGTH then None
                    else Some(Direct(table.View(), client, buffer[at + 1..at + 1 + buffer[at]]))
  {
    var handle := GetHandleFromBuffer(buffer, true);
    if handle.None? {
      return None;
    }
    var name := CString(handle.value);
    var receiverSocket := table.LookupHandle(name);
    if receiverSocket < 0 {
      sent := Some(if 0 < |name| < MAX_HANDLE_LENGTH then [Missing(client, name)] else []);
    } else {
      sent := Some([Copy(receiverSocket)]);
    }
  }

  /**
   A private message that a client built reaches the socket of its destination, once, or
   comes back as an error that names the missing destination (unlike that of a multicast).
   */
  lemma MessageReachesDestination(table: seq<Entry>, client: nat, m: Msg, buffer: seq<byte>)
    requires 1 <= |m.src| <= 99 && m.flag == 5 && |m.dests| == 1 && |m.text| <= 198
    requires 1 <= |m.dests[0]| <= 99 && NoZero(m.dests[0])
    requires |buffer| == MAXBUF && MsgBytes(m) <= buffer
    ensures Buildable(m)
    ensures var at: nat := 3 + buffer[1] as int;
            && buffer[at] <= MAX_HANDLE_LENGTH
            && Direct(table, client, buffer[at + 1..at + 1 + buffer[at]])
               == if m.dests[0] in AsMap(table) then [Copy(AsMap(table)[m.dests[0]])]
                  else [Missing(client, m.dests[0])]
  {
    hide MsgBytes, AsMap, Lookup;
    SentIffCountFits(m);
    HandlesReadBack(buffer, m);
    CStringEnds(m.dests[0], []);
    assert m.dests[0] + [] == m.dests[0];
    LookupIsMapLookup(table, m.dests[0]);
    HeadFields(buffer, m);
  }
}
