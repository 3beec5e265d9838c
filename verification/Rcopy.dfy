/**
 The receiving state of `rcopy.c`, under either receiving rule (see module Buffer). What
 the outside world decides in one call of `recvData` is an `Event`; `junk` is the
 uninitialised byte sent as the payload of the end-of-file acknowledgement.
 */
module Rcopy {
  import opened Bytes
  import opened Ring
  import opened Srej
  import opened Buffer

  datatype Receiver = Receiver(ring: PacketRing, expectedSeqNum: u32, done: bool)

  datatype Event = Event(ready: bool, recv: Received, junk: byte)

  /** One call of `recvData`: the state it leaves and the reply it sends, if any. */
  datatype Reaction = Reaction(next: Receiver, reply: Option<Packet>)

  function InitReceiver(winSize: u32): Receiver {
    Receiver(InitRing(winSize), 1, false)
  }

  predicate IsData(flag: byte) {
    flag == DATA || flag == SREJ_DATA || flag == TIMEOUT_DATA
  }

  /** A packet ahead of the expected one is buffered if possible, and the expected one rejected. */
  function OnAhead(rule: Rule, rx: Receiver, p: Packet): Reaction
    requires rx.ring.Shaped()
  {
    var (ring, r) := if rx.ring.Open() then Store(rule, rx.ring, p.payload, p.seqNum) else (rx.ring, 0);
    var next := rx.(ring := ring);
    if r < 0 then Reaction(next.(done := true), None)
    else Reaction(next, Some(Packet(SREJ, rx.expectedSeqNum, Be32(rx.expectedSeqNum))))
  }

  /** The expected chunk written at the end of the output, and the base moved past it. */
  function Written(rx: Receiver, chunk: seq<byte>): PacketRing {
    rx.ring.(out := rx.ring.out + chunk, nextSeqNum := Add32(rx.expectedSeqNum, 1))
  }

  /**
   The expected packet. As written, it is dropped when packets are buffered, and only the
   buffer is flushed; the documented rule writes it, then whatever now follows on.
   */
  function Accept(rule: Rule, rx: Receiver, p: Packet): Receiver
    requires rx.ring.Shaped()
  {
    match rule
    case AsWritten =>
      if rx.ring.NeedFlush() then
        var ring := FlushBuffer(rule, rx.ring);
        rx.(ring := ring, expectedSeqNum := ring.nextSeqNum)
      else rx.(ring := rx.ring.(out := rx.ring.out + p.payload), expectedSeqNum := Add32(rx.expectedSeqNum, 1))
    case Documented =>
      var ring := FlushBuffer(rule, Written(rx, p.payload));
      rx.(ring := ring, expectedSeqNum := ring.nextSeqNum)
  }

  function OnExpected(rule: Rule, rx: Receiver, p: Packet): Reaction
    requires rx.ring.Shaped()
  {
    var next := Accept(rule, rx, p);
    var last: u32 := (next.expectedSeqNum - 1) % TWO_32;
    Reaction(next, Some(Packet(ACK_RR, last, Be32(last))))
  }

  /** `recvData`. */
  function RecvStep(rule: Rule, rx: Receiver, e: Event): Reaction
    requires rx.ring.Shaped()
  {
    if rx.done then Reaction(rx, None)
    else if !e.ready then Reaction(rx.(done := true), None)
    else match e.recv
      case CrcError => Reaction(rx, None)
      case Got(p) =>
        if p.flag == END_OF_FILE then
          Reaction(rx.(done := true), Some(Packet(EOF_ACK, rx.expectedSeqNum, [e.junk])))
        else if !IsData(p.flag) then Reaction(rx.(done := true), None)
        else if p.seqNum > rx.expectedSeqNum then OnAhead(rule, rx, p)
        else if p.seqNum == rx.expectedSeqNum then OnExpected(rule, rx, p)
        else Reaction(rx, None)
  }

  /** Which calls change the ring or the expected number, and how. */
  lemma CallKinds(rule: Rule, rx: Receiver, e: Event)
    requires rx.ring.Shaped()
    ensures HandsAhead(rx, e) ==> RecvStep(rule, rx, e) == OnAhead(rule, rx, e.recv.packet)
    ensures HandsExpected(rx, e) ==> RecvStep(rule, rx, e) == OnExpected(rule, rx, e.recv.packet)
    ensures !HandsAhead(rx, e) && !HandsExpected(rx, e) ==>
              var Reaction(next, reply) := RecvStep(rule, rx, e);
              && next.ring == rx.ring && next.expectedSeqNum == rx.expectedSeqNum
              && (reply.Some? ==> reply.value.flag == EOF_ACK)
  {
  }

  lemma ReceiverStaysShaped(rule: Rule, rx: Receiver, e: Event)
    requires rx.ring.Shaped()
    ensures var next := RecvStep(rule, rx, e).next;
            next.ring.Shaped() && next.ring.winSize == rx.ring.winSize
  {
  }

  /** The receiver after a whole run, and the replies it sent. */
  function Receive(rule: Rule, winSize: u32, events: seq<Event>): (r: (Receiver, seq<Packet>))
    requires winSize > 0
    ensures r.0.ring.Shaped() && r.0.ring.winSize == winSize
  {
    if events == [] then (InitReceiver(winSize), [])
    else
      var (rx, replies) := Receive(rule, winSize, events[..|events| - 1]);
      var e := events[|events| - 1];
      ReceiverStaysShaped(rule, rx, e);
      var Reaction(next, reply) := RecvStep(rule, rx, e);
      (next, if reply.Some? then replies + [reply.value] else replies)
  }

  lemma ReceiveSnoc(rule: Rule, winSize: u32, events: seq<Event>, e: Event)
    requires winSize > 0
    ensures var (rx, replies) := Receive(rule, winSize, events);
            var Reaction(next, reply) := RecvStep(rule, rx, e);
            Receive(rule, winSize, events + [e])
            == (next, if reply.Some? then replies + [reply.value] else replies)
  {
    assert (events + [e])[..|events|] == events;
  }

  // ----- the receiver as written: progress

  /** The next call of `recvData` is handed the packet it expects. */
  predicate HandsExpected(rx: Receiver, e: Event) {
    && !rx.done && e.ready && e.recv.Got?
    && IsData(e.recv.packet.flag) && e.recv.packet.seqNum == rx.expectedSeqNum
  }

  /** When packets are counted in the ring, its base is occupied, and a lap on does not wrap. */
  predicate BaseOccupied(r: PacketRing) {
    && r.Shaped() && r.storedPackets >= 0
    && (r.NeedFlush() ==>
          r.nextSeqNum + r.winSize < TWO_32 && !At(r.cells, r.nextSeqNum).written)
  }

  /** ... and that base is ahead of the expected number. */
  predicate InvAsWritten(rx: Receiver) {
    && BaseOccupied(rx.ring)
    && (rx.ring.NeedFlush() ==> rx.ring.nextSeqNum > rx.expectedSeqNum)
  }

  lemma FlushAdvances(r: PacketRing) returns (k: nat)
    requires r.Shaped() && r.nextSeqNum + r.winSize < TWO_32
    requires !At(r.cells, r.nextSeqNum).written
    ensures 0 < k <= r.winSize
    ensures RunWithin(r, r.winSize, k) && WroteRun(r, k, FlushBuffer(AsWritten, r))
  {
    k := FlushWritesMaximalRun(AsWritten, r);
  }

  lemma StoreKeepsBase(r: PacketRing, data: seq<byte>, seqNum: u32)
    requires BaseOccupied(r)
    ensures var stored := Store(AsWritten, r, data, seqNum).0;
            BaseOccupied(stored)
            && (stored.NeedFlush() ==> stored.nextSeqNum == if r.NeedFlush() then r.nextSeqNum else seqNum)
  {
    if r.NeedFlush() && r.nextSeqNum <= seqNum < r.nextSeqNum + r.winSize {
      LapInjective(r.nextSeqNum, seqNum, r.winSize);
    }
  }

  lemma StoreKeepsInv(rx: Receiver, p: Packet)
    requires InvAsWritten(rx) && p.seqNum > rx.expectedSeqNum
    ensures InvAsWritten(OnAhead(AsWritten, rx, p).next)
  {
    StoreKeepsBase(rx.ring, p.payload, p.seqNum);
  }

  /** The expected number that is handed over is 2^32 - 1, with nothing buffered: its successor is 0. */
  predicate Wraps(rx: Receiver, e: Event) {
    HandsExpected(rx, e) && rx.expectedSeqNum == TWO_32 - 1 && !rx.ring.NeedFlush()
  }

  lemma AcceptAdvances(rx: Receiver, p: Packet)
    requires InvAsWritten(rx)
    ensures var next := Accept(AsWritten, rx, p);
            && InvAsWritten(next)
            && (rx.ring.NeedFlush() ==> next.expectedSeqNum > rx.expectedSeqNum)
            && (!rx.ring.NeedFlush() ==> next.expectedSeqNum == Add32(rx.expectedSeqNum, 1))
  {
    if rx.ring.NeedFlush() {
      hide Drain;
      var k := FlushAdvances(rx.ring);
    }
  }

  /**
   As written, the expected number never decreases, and it increases on every packet that
   carries it: but for the number 2^32 - 1, whose successor is 0, when nothing is buffered.
   */
  lemma ProgressStep(rx: Receiver, e: Event)
    requires InvAsWritten(rx)
    ensures var next := RecvStep(AsWritten, rx, e).next;
            && InvAsWritten(next)
            && (HandsExpected(rx, e) ==> (next.expectedSeqNum > rx.expectedSeqNum <==> !Wraps(rx, e)))
            && (Wraps(rx, e) ==> next.expectedSeqNum == 0)
            && (!HandsExpected(rx, e) ==> next.expectedSeqNum == rx.expectedSeqNum)
  {
    hide RecvStep, Accept, Store;
    CallKinds(AsWritten, rx, e);
    if HandsExpected(rx, e) {
      AcceptAdvances(rx, e.recv.packet);
    } else if HandsAhead(rx, e) {
      StoreKeepsInv(rx, e.recv.packet);
    }
  }

  /** `addPacket` rejects the number: outside the lap of the base or, as the first, within a lap of 2^32. */
  predicate Rejects(r: PacketRing, seqNum: u32) {
    if r.NeedFlush() then !(r.nextSeqNum <= seqNum < r.nextSeqNum + r.winSize)
    else seqNum + r.winSize >= TWO_32
  }

  /** A rejected packet changes nothing, but that the first one moves the base if it carries data. */
  lemma StoreRejectsIffOutsideLap(r: PacketRing, data: seq<byte>, seqNum: u32)
    requires BaseOccupied(r)
    ensures var (ring, res) := Store(AsWritten, r, data, seqNum);
            && (res < 0 <==> data == [] || seqNum == 0 || Rejects(r, seqNum))
            && (res < 0 ==> ring == if data == [] || seqNum == 0 || r.NeedFlush() then r else r.(nextSeqNum := seqNum))
            && ring.Shaped() && (res >= 0 ==> !At(ring.cells, seqNum).written)
  {
    hide Add32;
    AddWraps(r.nextSeqNum, r.winSize);
    AddWraps(seqNum, r.winSize);
  }

  /** A rejected ahead packet ends the session; any other is answered and, if there is room, in the ring. */
  lemma RejectedIffOutsideLap(rx: Receiver, p: Packet)
    requires InvAsWritten(rx) && !rx.done && p.seqNum > rx.expectedSeqNum
    ensures var Reaction(next, reply) := OnAhead(AsWritten, rx, p);
            && (next.done <==> rx.ring.Open() && (p.payload == [] || Rejects(rx.ring, p.seqNum)))
            && (next.done <==> reply == None)
            && next.ring.Shaped() && (!next.done && rx.ring.Open() ==> !At(next.ring.cells, p.seqNum).written)
  {
    StoreRejectsIffOutsideLap(rx.ring, p.payload, p.seqNum);
  }

  /** What ends the session in one call: silence, an unexpected flag, or a rejected packet. */
  predicate EndsReceiver(rx: Receiver, e: Event)
    requires rx.ring.Shaped()
  {
    && !rx.done
    && (!e.ready
        || (e.recv.Got? &&
            var p := e.recv.packet;
            if IsData(p.flag) then
              p.seqNum > rx.expectedSeqNum && rx.ring.Open() && (p.payload == [] || Rejects(rx.ring, p.seqNum))
            else p.flag != END_OF_FILE))
  }

  /** The end of the file. */
  predicate EofReceived(rx: Receiver, e: Event) {
    !rx.done && e.ready && e.recv.Got? && e.recv.packet.flag == END_OF_FILE
  }

  predicate EverEnded(winSize: u32, events: seq<Event>)
    requires winSize > 0
    decreases |events|
  {
    events != [] &&
    var init, e := events[..|events| - 1], events[|events| - 1];
    var rx := Receive(AsWritten, winSize, init).0;
    EverEnded(winSize, init) || EndsReceiver(rx, e) || EofReceived(rx, e)
  }

  lemma CallEndsIff(rx: Receiver, e: Event)
    requires InvAsWritten(rx) && !rx.done
    ensures var Reaction(next, reply) := RecvStep(AsWritten, rx, e);
            && (next.done <==> EndsReceiver(rx, e) || EofReceived(rx, e))
            && (EofReceived(rx, e) <==> reply.Some? && reply.value.flag == EOF_ACK)
            && (EndsReceiver(rx, e) ==> reply == None)
  {
    hide OnAhead, Rejects, Drain;
    if HandsAhead(rx, e) {
      RejectedIffOutsideLap(rx, e.recv.packet);
      AheadRepliesSrej(AsWritten, rx, e.recv.packet);
    }
  }

  lemma AheadRepliesSrej(rule: Rule, rx: Receiver, p: Packet)
    requires rx.ring.Shaped()
    ensures var reply := OnAhead(rule, rx, p).reply;
            reply.Some? ==> reply.value == Packet(SREJ, rx.expectedSeqNum, Be32(rx.expectedSeqNum))
  {
  }

  /**
   Over any arrivals at all, the receiver as written is done if and only if it was left
   waiting, received the end of file or a flag it does not know, or `addPacket` rejected a
   packet ahead; a checksum error or an old packet never ends it.
   */
  lemma {:induction false} ReceiverDoneIffEnded(winSize: u32, events: seq<Event>)
    requires winSize > 0
    ensures Receive(AsWritten, winSize, events).0.done <==> EverEnded(winSize, events)
    decreases |events|
  {
    if events != [] {
      var init, e := events[..|events| - 1], events[|events| - 1];
      ReceiverDoneIffEnded(winSize, init);
      AsWrittenKeepsInv(winSize, init);
      var rx := Receive(AsWritten, winSize, init).0;
      if !rx.done {
        CallEndsIff(rx, e);
      }
    }
  }

  /** In every run the base is ahead of the expected number while packets are counted. */
  lemma {:induction false} AsWrittenKeepsInv(winSize: u32, events: seq<Event>)
    requires winSize > 0
    ensures InvAsWritten(Receive(AsWritten, winSize, events).0)
    decreases |events|
  {
    if events != [] {
      var init := events[..|events| - 1];
      AsWrittenKeepsInv(winSize, init);
      ProgressStep(Receive(AsWritten, winSize, init).0, events[|events| - 1]);
    }
  }

  /** No call so far was handed 2^32 - 1 as the expected number with nothing buffered. */
  predicate NeverWraps(winSize: u32, events: seq<Event>)
    requires winSize > 0
    decreases |events|
  {
    events == [] ||
    var init := events[..|events| - 1];
    NeverWraps(winSize, init) && !Wraps(Receive(AsWritten, winSize, init).0, events[|events| - 1])
  }

  /** The expected number after the first `n` calls. */
  function ExpectedAfter(winSize: u32, events: seq<Event>, n: nat): u32
    requires winSize > 0 && n <= |events|
  {
    Receive(AsWritten, winSize, events[..n]).0.expectedSeqNum
  }

  ghost predicate NeverRetreats(winSize: u32, events: seq<Event>)
    requires winSize > 0
  {
    forall m: nat, n: nat :: m <= n <= |events| ==>
      ExpectedAfter(winSize, events, m) <= ExpectedAfter(winSize, events, n)
  }

  lemma RetreatsAtTheEnd(winSize: u32, events: seq<Event>)
    requires winSize > 0 && events != []
    ensures var init := events[..|events| - 1];
            NeverRetreats(winSize, events) <==>
              NeverRetreats(winSize, init)
              && Receive(AsWritten, winSize, init).0.expectedSeqNum
                 <= Receive(AsWritten, winSize, events).0.expectedSeqNum
  {
    var last := |events| - 1;
    var init := events[..last];
    forall n: nat | n <= last
      ensures ExpectedAfter(winSize, events, n) == ExpectedAfter(winSize, init, n)
    {
      assert events[..n] == init[..n];
    }
    assert events[..last + 1] == events && init[..last] == init;
    assert ExpectedAfter(winSize, events, last + 1) == Receive(AsWritten, winSize, events).0.expectedSeqNum;
    assert ExpectedAfter(winSize, events, last) == Receive(AsWritten, winSize, init).0.expectedSeqNum;
  }

  /** Over any arrivals at all, the expected number never retreats if and only if it never wraps. */
  lemma {:induction false} NeverRetreatsIffNeverWraps(winSize: u32, events: seq<Event>)
    requires winSize > 0
    ensures NeverRetreats(winSize, events) <==> NeverWraps(winSize, events)
    decreases |events|
  {
    if events != [] {
      var init := events[..|events| - 1];
      NeverRetreatsIffNeverWraps(winSize, init);
      RetreatsAtTheEnd(winSize, events);
      AsWrittenKeepsInv(winSize, init);
      ProgressStep(Receive(AsWritten, winSize, init).0, events[|events| - 1]);
    }
  }

  /** The numbers of the RRs sent, in order. */
  function RRs(replies: seq<Packet>): seq<u32> {
    if replies == [] then []
    else
      var last := replies[|replies| - 1];
      RRs(replies[..|replies| - 1]) + if last.flag == ACK_RR then [last.seqNum] else []
  }

  lemma RRsStep(replies: seq<Packet>, reply: Packet)
    ensures RRs(replies + [reply]) == RRs(replies) + if reply.flag == ACK_RR then [reply.seqNum] else []
  {
    assert (replies + [reply])[..|replies|] == replies;
  }

  predicate Increasing(s: seq<int>) {
    forall i, j :: 0 <= i < j < |s| ==> s[i] < s[j]
  }

  lemma IncreasingSnoc(s: seq<int>, last: int)
    ensures Increasing(s + [last]) <==> Increasing(s) && forall n <- s :: n < last
  {
    var longer := s + [last];
    forall n | n in s && Increasing(longer)
      ensures n < last
    {
      var i :| 0 <= i < |s| && s[i] == n;
      assert longer[i] < longer[|s|];
    }
    forall i, j | 0 <= i < j < |s| && Increasing(longer)
      ensures s[i] < s[j]
    {
      assert longer[i] < longer[j];
    }
    forall i, j | 0 <= i < j < |longer| && Increasing(s) && forall n <- s :: n < last
      ensures longer[i] < longer[j]
    {
      assert s[i] in s;
    }
  }

  /** An RR is sent for the expected packet only, and names the last number passed. */
  lemma RRNamesLastPassed(rx: Receiver, e: Event)
    requires InvAsWritten(rx)
    ensures var Reaction(next, reply) := RecvStep(AsWritten, rx, e);
            && (reply.Some? && reply.value.flag == ACK_RR <==> HandsExpected(rx, e))
            && (!Wraps(rx, e) ==> next.expectedSeqNum >= rx.expectedSeqNum)
            && (HandsExpected(rx, e) ==>
                  if Wraps(rx, e) then reply.value.seqNum == TWO_32 - 1
                  else rx.expectedSeqNum <= reply.value.seqNum == next.expectedSeqNum - 1)
  {
    ProgressStep(rx, e);
  }

  /** No call was handed the packet it expected after the expected number had wrapped. */
  predicate NothingAfterWrap(winSize: u32, events: seq<Event>)
    requires winSize > 0
    decreases |events|
  {
    events == [] ||
    var init := events[..|events| - 1];
    && NothingAfterWrap(winSize, init)
    && (HandsExpected(Receive(AsWritten, winSize, init).0, events[|events| - 1]) ==> NeverWraps(winSize, init))
  }

  /** The RRs of a run: below the expected number until it wraps, when 2^32 - 1 is among them. */
  predicate RRsAccountedFor(rx: Receiver, rrs: seq<u32>, wrapped: bool) {
    if wrapped then TWO_32 - 1 in rrs else forall n <- rrs :: n < rx.expectedSeqNum
  }

  lemma RRsAccountedStep(rx: Receiver, e: Event, rrs: seq<u32>, wrapped: bool)
    requires InvAsWritten(rx) && RRsAccountedFor(rx, rrs, wrapped)
    ensures var Reaction(next, reply) := RecvStep(AsWritten, rx, e);
            var more := if HandsExpected(rx, e) then rrs + [reply.value.seqNum] else rrs;
            && RRsAccountedFor(next, more, wrapped || Wraps(rx, e))
            && (Increasing(more) <==> Increasing(rrs) && (HandsExpected(rx, e) ==> !wrapped))
  {
    RRNamesLastPassed(rx, e);
    ProgressStep(rx, e);
    if HandsExpected(rx, e) {
      var last := RecvStep(AsWritten, rx, e).reply.value.seqNum;
      IncreasingSnoc(rrs, last);
      assert forall n <- rrs + [last] :: n in rrs || n == last;
      assert last in rrs + [last];
    }
  }

  lemma RRsOfCall(winSize: u32, events: seq<Event>)
    requires winSize > 0 && events != []
    ensures var init, e := events[..|events| - 1], events[|events| - 1];
            var (rx, replies) := Receive(AsWritten, winSize, init);
            && InvAsWritten(rx)
            && RRs(Receive(AsWritten, winSize, events).1)
               == if HandsExpected(rx, e) then RRs(replies) + [RecvStep(AsWritten, rx, e).reply.value.seqNum]
                  else RRs(replies)
  {
    var init, e := events[..|events| - 1], events[|events| - 1];
    AsWrittenKeepsInv(winSize, init);
    var (rx, replies) := Receive(AsWritten, winSize, init);
    RRNamesLastPassed(rx, e);
    var reply := RecvStep(AsWritten, rx, e).reply;
    if reply.Some? {
      RRsStep(replies, reply.value);
    }
  }

  /**
   Over any arrivals at all, the RRs of the receiver as written increase strictly if and
   only if nothing expected arrives after the expected number has wrapped to 0; until it
   wraps, each RR is below the expected number.
   */
  lemma {:induction false} AcknowledgementsIncrease(winSize: u32, events: seq<Event>)
    requires winSize > 0
    ensures var (rx, replies) := Receive(AsWritten, winSize, events);
            && InvAsWritten(rx)
            && RRsAccountedFor(rx, RRs(replies), !NeverWraps(winSize, events))
            && (Increasing(RRs(replies)) <==> NothingAfterWrap(winSize, events))
    decreases |events|
  {
    if events != [] {
      var init, e := events[..|events| - 1], events[|events| - 1];
      AcknowledgementsIncrease(winSize, init);
      RRsOfCall(winSize, events);
      var (rx, replies) := Receive(AsWritten, winSize, init);
      RRsAccountedStep(rx, e, RRs(replies), !NeverWraps(winSize, init));
      ProgressStep(rx, e);
    }
  }

  predicate NumberBelowTop(e: Event) {
    e.recv.Got? ==> e.recv.packet.seqNum < TWO_32 - 1
  }

  lemma {:induction false} LowNumbersNeverWrap(winSize: u32, events: seq<Event>)
    requires winSize > 0 && forall e <- events :: NumberBelowTop(e)
    ensures NeverWraps(winSize, events) && NothingAfterWrap(winSize, events)
    decreases |events|
  {
    if events != [] {
      LowNumbersNeverWrap(winSize, events[..|events| - 1]);
      assert NumberBelowTop(events[|events| - 1]);
    }
  }

  /** A flush in a ring of one slot writes the packet in it. */
  lemma DrainOne(r: PacketRing, a: seq<byte>)
    requires r.winSize == 1 && r.cells == [Cell(a, false)] && r.nextSeqNum + 1 < TWO_32
    ensures FlushBuffer(AsWritten, r) == PacketRing(1, [FREE_CELL], r.nextSeqNum + 1, 0, r.out + a)
  {
    var once := WriteNext(r);
    assert once == PacketRing(1, [FREE_CELL], r.nextSeqNum + 1, r.storedPackets - 1, r.out + a);
    assert Drain(r, 1) == Drain(once, 0) == once;
  }

  /** An intact data packet arrives. */
  function Data(seqNum: u32, chunk: seq<byte>): Event {
    Event(true, Got(Packet(DATA, seqNum, chunk)), 0)
  }

  /** One more call: where it leads, and which RR it sends. */
  lemma OneMoreCall(winSize: u32, events: seq<Event>, e: Event, next: Receiver)
    requires winSize > 0 && next == RecvStep(AsWritten, Receive(AsWritten, winSize, events).0, e).next
    ensures var rx, rrs := Receive(AsWritten, winSize, events).0, RRs(Receive(AsWritten, winSize, events).1);
            && Receive(AsWritten, winSize, events + [e]).0 == next
            && RRs(Receive(AsWritten, winSize, events + [e]).1)
               == if HandsExpected(rx, e) then rrs + [(next.expectedSeqNum - 1) % TWO_32] else rrs
  {
    hide RRs, Receive, RecvStep;
    ReceiveSnoc(AsWritten, winSize, events, e);
    RRsOfCall(winSize, events + [e]);
    assert (events + [e])[..|events|] == events;
    CallKinds(AsWritten, Receive(AsWritten, winSize, events).0, e);
  }

  lemma WrapSteps(a: seq<byte>)
    requires a != []
    ensures var waiting := Receiver(PacketRing(1, [Cell(a, false)], TWO_32 - 2, 1, []), 1, false);
            var flushed := Receiver(PacketRing(1, [FREE_CELL], TWO_32 - 1, 0, a), TWO_32 - 1, false);
            && RecvStep(AsWritten, InitReceiver(1), Data(TWO_32 - 2, a)).next == waiting
            && RecvStep(AsWritten, waiting, Data(1, a)).next == flushed
  {
    assert InitRing(1).cells == [FREE_CELL];
    DrainOne(PacketRing(1, [Cell(a, false)], TWO_32 - 2, 1, []), a);
    assert [] + a == a;
  }

  lemma NothingReceivedYet(rule: Rule, winSize: u32)
    requires winSize > 0
    ensures Receive(rule, winSize, []) == (InitReceiver(winSize), []) && RRs([]) == []
  {
  }

  lemma RunToTop(a: seq<byte>)
    requires a != []
    ensures var (rx, replies) := Receive(AsWritten, 1, [Data(TWO_32 - 2, a), Data(1, a)]);
            && rx == Receiver(PacketRing(1, [FREE_CELL], TWO_32 - 1, 0, a), TWO_32 - 1, false)
            && RRs(replies) == [TWO_32 - 2]
  {
    hide Receive, RRs, RecvStep;
    var e, f := Data(TWO_32 - 2, a), Data(1, a);
    WrapSteps(a);
    NothingReceivedYet(AsWritten, 1);
    OneMoreCall(1, [], e, Receiver(PacketRing(1, [Cell(a, false)], TWO_32 - 2, 1, []), 1, false));
    assert [] + [e] == [e] && [e] + [f] == [e, f];
    OneMoreCall(1, [e], f, Receiver(PacketRing(1, [FREE_CELL], TWO_32 - 1, 0, a), TWO_32 - 1, false));
  }

  /** A run whose expected number wraps, in a window of one: its last RR is 0. */
  lemma WrapRun(a: seq<byte>)
    requires a != []
    ensures var toTop := [Data(TWO_32 - 2, a), Data(1, a)];
            && Receive(AsWritten, 1, toTop).0.expectedSeqNum == TWO_32 - 1
            && Receive(AsWritten, 1, toTop + [Data(TWO_32 - 1, a)]).0.expectedSeqNum == 0
            && RRs(Receive(AsWritten, 1, toTop + [Data(TWO_32 - 1, a)] + [Data(0, a)]).1)
               == [TWO_32 - 2, TWO_32 - 1, 0]
  {
    hide Receive, RRs;
    RunToTop(a);
    var toTop := [Data(TWO_32 - 2, a), Data(1, a)];
    var top := Receive(AsWritten, 1, toTop).0;
    var wrapped := top.(ring := top.ring.(out := a + a), expectedSeqNum := 0);
    OneMoreCall(1, toTop, Data(TWO_32 - 1, a), wrapped);
    OneMoreCall(1, toTop + [Data(TWO_32 - 1, a)], Data(0, a), RecvStep(AsWritten, wrapped, Data(0, a)).next);
  }

  // ----- the receiver as written: what reaches the file

  /** Every packet stands for its chunk of the file. */
  predicate GenuineEvent(file: seq<seq<byte>>, e: Event) {
    e.recv.Got? ==>
      var p := e.recv.packet;
      p.flag == END_OF_FILE ||
      (IsData(p.flag) && 1 <= p.seqNum <= |file| && p.payload == file[p.seqNum - 1])
  }

  /** What `read` returns for a file: full buffers, but for the last chunk, which is not empty. */
  predicate FullChunks(file: seq<seq<byte>>, buffSize: nat) {
    forall k :: 0 <= k < |file| ==>
      0 < |file[k]| <= buffSize && (k < |file| - 1 ==> |file[k]| == buffSize)
  }

  /** The output is the chunks below the expected number, in order. */
  predicate OnTrack(file: seq<seq<byte>>, rx: Receiver) {
    && 1 <= rx.expectedSeqNum <= |file| + 1
    && rx.ring.out == Flatten(file[..rx.expectedSeqNum - 1])
  }

  /** The output is too short for the expected number, or that number is beyond the file. */
  predicate Behind(file: seq<seq<byte>>, rx: Receiver) {
    && 1 <= rx.expectedSeqNum
    && (rx.expectedSeqNum <= |file| + 1 ==> |rx.ring.out| < |Flatten(file[..rx.expectedSeqNum - 1])|)
  }

  predicate SmallCells(cells: seq<Cell>, buffSize: nat) {
    forall i :: 0 <= i < |cells| ==> |cells[i].data| <= buffSize
  }

  lemma {:induction false} FlattenAtMost(pieces: seq<seq<byte>>, buffSize: nat)
    requires forall k :: 0 <= k < |pieces| ==> |pieces[k]| <= buffSize
    ensures |Flatten(pieces)| <= |pieces| * buffSize
    decreases |pieces|
  {
    if pieces != [] {
      FlattenAtMost(pieces[..|pieces| - 1], buffSize);
      assert |pieces| * buffSize == (|pieces| - 1) * buffSize + buffSize;
    }
  }

  /** All chunks before the last one are full. */
  lemma {:induction false} StretchShort(file: seq<seq<byte>>, buffSize: nat, a: nat, b: nat)
    requires FullChunks(file, buffSize) && a <= b < |file|
    ensures |Flatten(file[..b])| == |Flatten(file[..a])| + (b - a) * buffSize
    decreases b
  {
    hide Flatten;
    if a < b {
      assert file[..b] == file[..b - 1] + [file[b - 1]];
      FlattenSnoc(file[..b - 1], file[b - 1]);
      StretchShort(file, buffSize, a, b - 1);
      Distribute(b - a - 1, 1, buffSize);
    }
  }

  /** Even when it ends with the last chunk, a stretch of n chunks exceeds n - 1 full buffers. */
  lemma StretchLength(file: seq<seq<byte>>, buffSize: nat, a: nat, b: nat)
    requires FullChunks(file, buffSize) && a < b <= |file|
    ensures |Flatten(file[..b])| > |Flatten(file[..a])| + (b - a - 1) * buffSize
  {
    StretchShort(file, buffSize, a, b - 1);
    assert file[..b] == file[..b - 1] + [file[b - 1]];
    FlattenSnoc(file[..b - 1], file[b - 1]);
  }

  lemma RunIsSmall(r: PacketRing, k: nat, buffSize: nat)
    requires r.Shaped() && SmallCells(r.cells, buffSize)
    ensures |Flatten(Waiting(r, k))| <= k * buffSize
  {
    var waiting := Waiting(r, k);
    assert forall j :: 0 <= j < k ==> waiting[j] == At(r.cells, r.nextSeqNum + j).data;
    FlattenAtMost(waiting, buffSize);
  }

  lemma {:induction false} DrainKeepsCellsSmall(r: PacketRing, n: nat, buffSize: nat)
    requires r.Shaped() && SmallCells(r.cells, buffSize)
    ensures SmallCells(Drain(r, n).cells, buffSize)
    decreases n
  {
    if n > 0 && !At(r.cells, r.nextSeqNum).written {
      DrainKeepsCellsSmall(WriteNext(r), n - 1, buffSize);
    }
  }

  lemma Distribute(m: nat, n: nat, size: nat)
    ensures (m + n) * size == m * size + n * size >= m * size
  {
  }

  lemma ShortOfStretch(file: seq<seq<byte>>, buffSize: nat, a: nat, b: nat, k: nat)
    requires FullChunks(file, buffSize) && a + k < b <= |file|
    ensures |Flatten(file[..a])| + k * buffSize < |Flatten(file[..b])|
  {
    StretchLength(file, buffSize, a, b);
    Distribute(k, b - a - 1 - k, buffSize);
  }

  /** Flushing instead of writing loses the expected chunk: from then on the output is behind. */
  lemma FlushFallsBehind(file: seq<seq<byte>>, buffSize: nat, rx: Receiver, p: Packet)
    requires FullChunks(file, buffSize) && InvAsWritten(rx) && SmallCells(rx.ring.cells, buffSize)
    requires OnTrack(file, rx) || Behind(file, rx)
    requires rx.expectedSeqNum <= |file| && rx.ring.NeedFlush()
    ensures Behind(file, Accept(AsWritten, rx, p))
  {
    var ring := FlushBuffer(AsWritten, rx.ring);
    var k := FlushAdvances(rx.ring);
    RunIsSmall(rx.ring, k, buffSize);
    var a, b := rx.expectedSeqNum - 1, ring.nextSeqNum - 1;
    assert |ring.out| <= |Flatten(file[..a])| + k * buffSize;
    if b <= |file| {
      ShortOfStretch(file, buffSize, a, b, k);
    }
  }

  /** Writing the expected chunk keeps an output on track, or behind. */
  lemma WriteKeepsTrack(file: seq<seq<byte>>, rx: Receiver, p: Packet)
    requires |file| + 1 < TWO_32 && rx.ring.Shaped() && !rx.ring.NeedFlush()
    requires 1 <= rx.expectedSeqNum <= |file| && p.payload == file[rx.expectedSeqNum - 1]
    ensures OnTrack(file, rx) ==> OnTrack(file, Accept(AsWritten, rx, p))
    ensures Behind(file, rx) ==> Behind(file, Accept(AsWritten, rx, p))
  {
    var n := rx.expectedSeqNum;
    assert file[..n] == file[..n - 1] + [file[n - 1]];
    FlattenSnoc(file[..n - 1], file[n - 1]);
  }

  lemma StepKeepsTrack(file: seq<seq<byte>>, buffSize: nat, rx: Receiver, e: Event)
    requires FullChunks(file, buffSize) && |file| + 1 < TWO_32 && GenuineEvent(file, e)
    requires InvAsWritten(rx) && SmallCells(rx.ring.cells, buffSize)
    requires OnTrack(file, rx) || Behind(file, rx)
    ensures var next := RecvStep(AsWritten, rx, e).next;
            var flushes := HandsExpected(rx, e) && rx.ring.NeedFlush();
            && (OnTrack(file, rx) && !flushes ==> OnTrack(file, next))
            && (Behind(file, rx) || flushes ==> Behind(file, next))
  {
    if HandsExpected(rx, e) {
      if rx.ring.NeedFlush() {
        FlushFallsBehind(file, buffSize, rx, e.recv.packet);
      } else {
        WriteKeepsTrack(file, rx, e.recv.packet);
      }
    } else {
      assert RecvStep(AsWritten, rx, e).next.ring.out == rx.ring.out;
    }
  }

  lemma StepKeepsCellsSmall(file: seq<seq<byte>>, buffSize: nat, rx: Receiver, e: Event)
    requires FullChunks(file, buffSize) && GenuineEvent(file, e)
    requires rx.ring.Shaped() && SmallCells(rx.ring.cells, buffSize)
    ensures SmallCells(RecvStep(AsWritten, rx, e).next.ring.cells, buffSize)
  {
    DrainKeepsCellsSmall(rx.ring, rx.ring.winSize, buffSize);
  }

  /** In no call so far was the expected packet handed over while packets were buffered. */
  predicate NeverFlushed(winSize: u32, events: seq<Event>)
    requires winSize > 0
    decreases |events|
  {
    events == [] ||
    var init := events[..|events| - 1];
    var rx := Receive(AsWritten, winSize, init).0;
    NeverFlushed(winSize, init) && !(HandsExpected(rx, events[|events| - 1]) && rx.ring.NeedFlush())
  }

  lemma {:induction false} OutputIsTrackedOrBehind(
      file: seq<seq<byte>>, buffSize: nat, winSize: u32, events: seq<Event>)
    requires winSize > 0 && FullChunks(file, buffSize) && |file| + 1 < TWO_32
    requires forall e <- events :: GenuineEvent(file, e)
    ensures var rx := Receive(AsWritten, winSize, events).0;
            && InvAsWritten(rx) && SmallCells(rx.ring.cells, buffSize)
            && if NeverFlushed(winSize, events) then OnTrack(file, rx) else Behind(file, rx)
    decreases |events|
  {
    if events == [] {
      assert file[..0] == [];
    } else {
      var init, e := events[..|events| - 1], events[|events| - 1];
      OutputIsTrackedOrBehind(file, buffSize, winSize, init);
      var rx := Receive(AsWritten, winSize, init).0;
      assert e in events && GenuineEvent(file, e);
      ProgressStep(rx, e);
      StepKeepsCellsSmall(file, buffSize, rx, e);
      StepKeepsTrack(file, buffSize, rx, e);
    }
  }

  /**
   Fed genuine packets in any order, with any losses and repetitions, the receiver as
   written holds the leading chunks of the file if and only if it was never handed the
   expected packet while packets were buffered (the guard `needFlush()` in `recvData`).
   */
  lemma AsWrittenCorrectIffNeverFlushed(
      file: seq<seq<byte>>, buffSize: nat, winSize: u32, events: seq<Event>)
    requires winSize > 0 && FullChunks(file, buffSize) && |file| + 1 < TWO_32
    requires forall e <- events :: GenuineEvent(file, e)
    ensures OnTrack(file, Receive(AsWritten, winSize, events).0) <==> NeverFlushed(winSize, events)
  {
    OutputIsTrackedOrBehind(file, buffSize, winSize, events);
  }

  // ----- the same condition, told from the arriving numbers alone

  predicate HandsAhead(rx: Receiver, e: Event) {
    && !rx.done && e.ready && e.recv.Got?
    && IsData(e.recv.packet.flag) && e.recv.packet.seqNum > rx.expectedSeqNum
  }

  /**
   What an onlooker makes of the arrivals. `InOrder`: every number so far came in its turn
   or was old. `Gap`: `next` is missing, `base` was the first number ahead of it, and `held`
   are the numbers of its lap that have arrived. `Repaired`: the missing number then
   arrived. `Over`: the session ended first.
   */
  datatype Sight = InOrder(next: u32) | Gap(next: u32, base: u32, held: set<u32>) | Repaired | Over

  /** Within a gap, numbers outside the lap of `base` end the session, unless a whole lap is held. */
  function Watch(winSize: u32, sight: Sight, e: Event): Sight {
    if sight.Repaired? || sight.Over? then sight
    else if !e.ready then Over
    else if e.recv.CrcError? then sight
    else if !IsData(e.recv.packet.flag) then Over
    else
      var n := e.recv.packet.seqNum;
      match sight
      case InOrder(next) =>
        if n == next then InOrder(Add32(next, 1))
        else if n > next then Gap(next, n, {n})
        else sight
      case Gap(next, base, held) =>
        if n == next then Repaired
        else if n < next || |held| >= winSize then sight
        else if base <= n < base + winSize then Gap(next, base, held + {n})
        else Over
  }

  function WatchAll(winSize: u32, events: seq<Event>): Sight {
    if events == [] then InOrder(1)
    else Watch(winSize, WatchAll(winSize, events[..|events| - 1]), events[|events| - 1])
  }

  /** No number arrived in its turn after one that had been ahead of its turn. */
  predicate NeverRepaired(winSize: u32, events: seq<Event>) {
    !WatchAll(winSize, events).Repaired?
  }

  predicate AllWritten(cells: seq<Cell>) {
    forall i :: 0 <= i < |cells| ==> cells[i].written
  }

  /** In the lap from `base`, just these numbers wait. */
  predicate Waits(cells: seq<Cell>, base: nat, held: set<u32>)
    requires cells != []
  {
    && (forall n <- held :: base <= n < base + |cells|)
    && forall s: u32 :: base <= s < base + |cells| ==> (At(cells, s).written <==> s !in held)
  }

  /** Until the first flush the receiver is as the onlooker thinks. */
  predicate SeenAs(sight: Sight, rx: Receiver) {
    rx.ring.Shaped() &&
    match sight
    case InOrder(next) =>
      !rx.done && rx.expectedSeqNum == next && rx.ring.storedPackets == 0 && AllWritten(rx.ring.cells)
    case Gap(next, base, held) =>
      && !rx.done && rx.expectedSeqNum == next < base && rx.ring.nextSeqNum == base
      && base + rx.ring.winSize < TWO_32 && rx.ring.storedPackets == |held| > 0
      && Waits(rx.ring.cells, base, held)
    case Repaired => true
    case Over => rx.done
  }

  lemma WaitsOne(cells: seq<Cell>, n: u32, data: seq<byte>)
    requires cells != [] && AllWritten(cells)
    ensures Waits(cells[Slot(n, |cells|) := Cell(data, false)], n, {n})
  {
    LapInjective(n, n, |cells|);
  }

  lemma WaitsOneMore(cells: seq<Cell>, base: u32, held: set<u32>, n: u32, data: seq<byte>)
    requires cells != [] && Waits(cells, base, held) && base <= n < base + |cells|
    ensures var after := if At(cells, n).written then cells[Slot(n, |cells|) := Cell(data, false)] else cells;
            Waits(after, base, held + {n})
    ensures |held + {n}| == |held| + if At(cells, n).written then 1 else 0
  {
    LapInjective(base, n, |cells|);
    if n in held {
      assert held + {n} == held;
    }
  }

  /** The first packet ahead of its turn. */
  lemma FirstAheadIsSeen(rx: Receiver, p: Packet)
    requires SeenAs(InOrder(rx.expectedSeqNum), rx) && p.seqNum > rx.expectedSeqNum
    requires p.payload != [] && p.seqNum + rx.ring.winSize < TWO_32
    ensures SeenAs(Gap(rx.expectedSeqNum, p.seqNum, {p.seqNum}), OnAhead(AsWritten, rx, p).next)
  {
    WaitsOne(rx.ring.cells, p.seqNum, p.payload);
    assert OnAhead(AsWritten, rx, p).next
        == rx.(ring := rx.ring.Set(p.seqNum, Cell(p.payload, false)).(nextSeqNum := p.seqNum, storedPackets := 1));
  }

  lemma NextAheadStep(rx: Receiver, p: Packet)
    requires rx.ring.Shaped() && rx.ring.NeedFlush() && rx.ring.Open() && p.payload != []
    requires 1 <= rx.ring.nextSeqNum <= p.seqNum < rx.ring.nextSeqNum + rx.ring.winSize < TWO_32
    ensures OnAhead(AsWritten, rx, p).next ==
            if At(rx.ring.cells, p.seqNum).written
            then rx.(ring := rx.ring.Set(p.seqNum, Cell(p.payload, false)).(storedPackets := rx.ring.storedPackets + 1))
            else rx
  {
    hide Add32;
    AddWraps(rx.ring.nextSeqNum, rx.ring.winSize);
  }

  /** Another one, in the lap of the first, when the buffer is open. */
  lemma NextAheadIsSeen(rx: Receiver, base: u32, held: set<u32>, p: Packet)
    requires SeenAs(Gap(rx.expectedSeqNum, base, held), rx) && p.seqNum > rx.expectedSeqNum
    requires p.payload != [] && base <= p.seqNum < base + rx.ring.winSize && |held| < rx.ring.winSize
    ensures SeenAs(Gap(rx.expectedSeqNum, base, held + {p.seqNum}), OnAhead(AsWritten, rx, p).next)
  {
    hide OnAhead, Waits, AllWritten;
    WaitsOneMore(rx.ring.cells, base, held, p.seqNum, p.payload);
    NextAheadStep(rx, p);
  }

  /** Otherwise it is not stored: the buffer is full, or the packet is rejected. */
  lemma OtherAheadIsSeen(rx: Receiver, base: u32, held: set<u32>, p: Packet)
    requires SeenAs(Gap(rx.expectedSeqNum, base, held), rx) && p.seqNum > rx.expectedSeqNum && p.payload != []
    requires |held| >= rx.ring.winSize || !(base <= p.seqNum < base + rx.ring.winSize)
    ensures OnAhead(AsWritten, rx, p).next == rx.(done := |held| < rx.ring.winSize)
  {
    hide Waits, AllWritten, Add32;
    AddWraps(rx.ring.nextSeqNum, rx.ring.winSize);
  }

  /** A packet ahead of its turn, before the first flush. */
  lemma AheadIsSeen(winSize: u32, sight: Sight, rx: Receiver, e: Event)
    requires SeenAs(sight, rx) && rx.ring.winSize == winSize && HandsAhead(rx, e) && !sight.Repaired?
    requires e.recv.packet.payload != [] && e.recv.packet.seqNum + winSize < TWO_32
    ensures SeenAs(Watch(winSize, sight, e), OnAhead(AsWritten, rx, e.recv.packet).next)
  {
    hide OnAhead;
    var p := e.recv.packet;
    if sight.InOrder? {
      FirstAheadIsSeen(rx, p);
    } else if |sight.held| < winSize && sight.base <= p.seqNum < sight.base + winSize {
      NextAheadIsSeen(rx, sight.base, sight.held, p);
    } else {
      OtherAheadIsSeen(rx, sight.base, sight.held, p);
    }
  }

  lemma WatchStep(file: seq<seq<byte>>, buffSize: nat, winSize: u32, sight: Sight, rx: Receiver, e: Event)
    requires FullChunks(file, buffSize) && GenuineEvent(file, e) && |file| + winSize < TWO_32
    requires SeenAs(sight, rx) && rx.ring.winSize == winSize
    ensures var after := Watch(winSize, sight, e);
            && SeenAs(after, RecvStep(AsWritten, rx, e).next)
            && (after.Repaired? <==> sight.Repaired? || (HandsExpected(rx, e) && rx.ring.NeedFlush()))
  {
    ReceiverStaysShaped(AsWritten, rx, e);
    if HandsAhead(rx, e) && !sight.Repaired? {
      AheadIsSeen(winSize, sight, rx, e);
    }
  }

  /** The `needFlush` branch has been taken exactly when the onlooker has seen a repair. */
  lemma {:induction false} FlushesAreRepairs(file: seq<seq<byte>>, buffSize: nat, winSize: u32, events: seq<Event>)
    requires winSize > 0 && FullChunks(file, buffSize) && |file| + winSize < TWO_32
    requires forall e <- events :: GenuineEvent(file, e)
    ensures NeverRepaired(winSize, events) <==> NeverFlushed(winSize, events)
    ensures SeenAs(WatchAll(winSize, events), Receive(AsWritten, winSize, events).0)
    decreases |events|
  {
    if events != [] {
      var init, e := events[..|events| - 1], events[|events| - 1];
      FlushesAreRepairs(file, buffSize, winSize, init);
      assert e in events && GenuineEvent(file, e);
      WatchStep(file, buffSize, winSize, WatchAll(winSize, init), Receive(AsWritten, winSize, init).0, e);
    }
  }

  /**
   The receiver as written delivers the leading chunks of the file if and only if no
   number arrives in its turn after one that was ahead: one repaired loss is enough. The
   condition looks at the arriving numbers only.
   */
  lemma AsWrittenCorrectIffNothingRepaired(
      file: seq<seq<byte>>, buffSize: nat, winSize: u32, events: seq<Event>)
    requires winSize > 0 && FullChunks(file, buffSize) && |file| + winSize < TWO_32
    requires forall e <- events :: GenuineEvent(file, e)
    ensures OnTrack(file, Receive(AsWritten, winSize, events).0) <==> NeverRepaired(winSize, events)
  {
    AsWrittenCorrectIffNeverFlushed(file, buffSize, winSize, events);
    FlushesAreRepairs(file, buffSize, winSize, events);
  }

  /** Draining a ring of two slots that holds packet 2 at its base writes that packet. */
  lemma DrainSecond(r: PacketRing, b: seq<byte>)
    requires r.winSize == 2 && r.cells == [Cell(b, false), FREE_CELL] && r.nextSeqNum == 2
    ensures Drain(r, 2) == PacketRing(2, [FREE_CELL, FREE_CELL], 3, r.storedPackets - 1, r.out + b)
  {
    assert Slot(2, 2) == 0 && Slot(3, 2) == 1;
    var once := WriteNext(r);
    assert once == PacketRing(2, [FREE_CELL, FREE_CELL], 3, r.storedPackets - 1, r.out + b);
    assert Drain(once, 1) == once;
  }

  /** Chunk 2 arrives first, in a window of two. */
  lemma SecondArrives(rule: Rule, b: seq<byte>, junk: byte)
    requires b != []
    ensures var second := Event(true, Got(Packet(DATA, 2, b)), junk);
            Receive(rule, 2, [second]).0 ==
            Receiver(PacketRing(2, [Cell(b, false), FREE_CELL], if rule.AsWritten? then 2 else 1, 1, []), 1, false)
  {
    var second := Event(true, Got(Packet(DATA, 2, b)), junk);
    ReceiveSnoc(rule, 2, [], second);
    assert [] + [second] == [second] && Slot(2, 2) == 0;
    assert InitRing(2).cells == [FREE_CELL, FREE_CELL];
  }

  lemma ThenFirst(rule: Rule, a: seq<byte>, b: seq<byte>, junk: byte)
    requires b != []
    ensures var second := Event(true, Got(Packet(DATA, 2, b)), junk);
            var first := Event(true, Got(Packet(SREJ_DATA, 1, a)), junk);
            Receive(rule, 2, [second, first]).0 ==
            Accept(rule, Receive(rule, 2, [second]).0, first.recv.packet)
  {
    hide Receive, RecvStep;
    var second := Event(true, Got(Packet(DATA, 2, b)), junk);
    var first := Event(true, Got(Packet(SREJ_DATA, 1, a)), junk);
    SecondArrives(rule, b, junk);
    ReceiveSnoc(rule, 2, [second], first);
    assert [second] + [first] == [second, first];
    CallKinds(rule, Receive(rule, 2, [second]).0, first);
  }

  /** The shortest run on which the two rules differ: chunk 2 arrives before chunk 1. */
  lemma RulesDiverge(a: seq<byte>, b: seq<byte>, junk: byte)
    requires a != [] && b != []
    ensures var second := Event(true, Got(Packet(DATA, 2, b)), junk);
            var first := Event(true, Got(Packet(SREJ_DATA, 1, a)), junk);
            var documented := Receive(Documented, 2, [second, first]).0;
            var asWritten := Receive(AsWritten, 2, [second, first]).0;
            && documented.expectedSeqNum == asWritten.expectedSeqNum == 3
            && documented.ring.out == a + b && asWritten.ring.out == b
  {
    hide Receive, Drain;
    SecondArrives(AsWritten, b, junk);
    SecondArrives(Documented, b, junk);
    ThenFirst(AsWritten, a, b, junk);
    ThenFirst(Documented, a, b, junk);
    DrainSecond(PacketRing(2, [Cell(b, false), FREE_CELL], 2, 1, []), b);
    DrainSecond(PacketRing(2, [Cell(b, false), FREE_CELL], 2, 1, a), b);
    assert [] + b == b && [] + a == a;
  }

  // ----- the documented receiver

  /** Over the lap from `base`, a slot is free or holds its own chunk, numbered above base and below top. */
  predicate Holds(file: seq<seq<byte>>, cells: seq<Cell>, base: nat, top: nat)
    requires cells != [] && top <= |file| + 1
  {
    forall s: nat :: base <= s < base + |cells| ==>
      At(cells, s).written || (1 <= base < s < top && At(cells, s).data == file[s - 1])
  }

  /** `top` bounds the numbers received so far: those the sender has used are below it. */
  predicate InvDocumented(file: seq<seq<byte>>, top: nat, rx: Receiver) {
    && rx.ring.Shaped() && |file| + rx.ring.winSize + 1 < TWO_32
    && 1 <= rx.expectedSeqNum <= top <= |file| + 1
    && rx.ring.nextSeqNum == rx.expectedSeqNum
    && rx.ring.out == Flatten(file[..rx.expectedSeqNum - 1])
    && rx.ring.storedPackets == Count(rx.ring.cells)
    && Holds(file, rx.ring.cells, rx.expectedSeqNum, top)
  }

  /** A packet that fits: genuine, sent, and within a lap of the expected number. */
  predicate FittingEvent(file: seq<seq<byte>>, top: nat, rx: Receiver, e: Event) {
    && GenuineEvent(file, e)
    && (e.recv.Got? && IsData(e.recv.packet.flag) ==>
          e.recv.packet.seqNum < top && e.recv.packet.seqNum < rx.expectedSeqNum + rx.ring.winSize)
  }

  /** The buffer is open whenever the documented receiver is at rest. */
  lemma BufferAlwaysOpen(file: seq<seq<byte>>, top: nat, rx: Receiver)
    requires InvDocumented(file, top, rx)
    ensures rx.ring.Open() && At(rx.ring.cells, rx.expectedSeqNum).written
  {
    assert At(rx.ring.cells, rx.expectedSeqNum).written;
    CountBound(rx.ring.cells);
  }

  lemma HoldsAfterStore(file: seq<seq<byte>>, cells: seq<Cell>, base: nat, top: nat, seqNum: nat)
    requires cells != [] && top <= |file| + 1 && Holds(file, cells, base, top)
    requires 1 <= base < seqNum < top && seqNum < base + |cells|
    ensures Holds(file, cells[Slot(seqNum, |cells|) := Cell(file[seqNum - 1], false)], base, top)
  {
    var stored := cells[Slot(seqNum, |cells|) := Cell(file[seqNum - 1], false)];
    LapInjective(base, seqNum, |cells|);
    forall s: nat | base <= s < base + |stored|
      ensures At(stored, s).written || (1 <= base < s < top && At(stored, s).data == file[s - 1])
    {
      if s != seqNum {
        assert At(stored, s) == At(cells, s);
      }
    }
  }

  /** A packet ahead, within a lap, is stored unless it is there already. */
  lemma StoreFits(r: PacketRing, data: seq<byte>, seqNum: u32)
    requires r.Shaped() && data != []
    requires 1 <= r.nextSeqNum <= seqNum < r.nextSeqNum + r.winSize < TWO_32
    ensures Store(Documented, r, data, seqNum) ==
            if At(r.cells, seqNum).written
            then (r.Set(seqNum, Cell(data, false)).(storedPackets := r.storedPackets + 1), 0)
            else (r, 0)
  {
    hide Add32;
    AddWraps(r.nextSeqNum, r.winSize);
  }

  /** The ring with one more packet in it. */
  function Stored(r: PacketRing, data: seq<byte>, seqNum: u32): PacketRing
    requires r.Shaped()
  {
    r.Set(seqNum, Cell(data, false)).(storedPackets := r.storedPackets + 1)
  }

  /** What becomes of a packet ahead under the documented rule. */
  lemma AheadStep(rx: Receiver, p: Packet)
    requires rx.ring.Shaped() && rx.ring.Open() && p.payload != []
    requires 1 <= rx.ring.nextSeqNum <= p.seqNum < rx.ring.nextSeqNum + rx.ring.winSize < TWO_32
    ensures OnAhead(Documented, rx, p) == Reaction(
              if At(rx.ring.cells, p.seqNum).written then rx.(ring := Stored(rx.ring, p.payload, p.seqNum)) else rx,
              Some(Packet(SREJ, rx.expectedSeqNum, Be32(rx.expectedSeqNum))))
  {
    hide Store, Be32;
    StoreFits(rx.ring, p.payload, p.seqNum);
  }

  lemma StoredKeepsInv(file: seq<seq<byte>>, top: nat, rx: Receiver, data: seq<byte>, seqNum: u32)
    requires InvDocumented(file, top, rx) && At(rx.ring.cells, seqNum).written
    requires rx.expectedSeqNum < seqNum < top && seqNum < rx.expectedSeqNum + rx.ring.winSize
    requires data == file[seqNum - 1]
    ensures InvDocumented(file, top, rx.(ring := Stored(rx.ring, data, seqNum)))
  {
    hide Count, Flatten, Holds;
    HoldsAfterStore(file, rx.ring.cells, rx.expectedSeqNum, top, seqNum);
    CountUpdate(rx.ring.cells, Slot(seqNum, rx.ring.winSize), Cell(data, false));
  }

  /** `addPacket` never rejects: a packet ahead is in the ring afterwards, and no other is lost. */
  lemma AheadIsBuffered(file: seq<seq<byte>>, top: nat, rx: Receiver, p: Packet)
    requires InvDocumented(file, top, rx) && p.payload != []
    requires rx.expectedSeqNum < p.seqNum < top && p.seqNum < rx.expectedSeqNum + rx.ring.winSize
    requires p.payload == file[p.seqNum - 1]
    ensures var Reaction(next, reply) := OnAhead(Documented, rx, p);
            && InvDocumented(file, top, next) && next.done == rx.done
            && next.expectedSeqNum == rx.expectedSeqNum && next.ring.winSize == rx.ring.winSize
            && At(next.ring.cells, p.seqNum) == Cell(p.payload, false)
            && reply == Some(Packet(SREJ, rx.expectedSeqNum, Be32(rx.expectedSeqNum)))
  {
    hide Count, Flatten, OnAhead, Be32;
    BufferAlwaysOpen(file, top, rx);
    AheadStep(rx, p);
    if At(rx.ring.cells, p.seqNum).written {
      StoredKeepsInv(file, top, rx, p.payload, p.seqNum);
    }
  }

  /** Nor does it disturb another slot of the lap. */
  lemma AheadTouchesOneSlot(file: seq<seq<byte>>, top: nat, rx: Receiver, p: Packet)
    requires InvDocumented(file, top, rx) && p.payload != []
    requires rx.expectedSeqNum < p.seqNum < top && p.seqNum < rx.expectedSeqNum + rx.ring.winSize
    requires p.payload == file[p.seqNum - 1]
    ensures At(rx.ring.cells, p.seqNum).written || At(rx.ring.cells, p.seqNum).data == p.payload
    ensures var cells := OnAhead(Documented, rx, p).next.ring.cells;
            |cells| == rx.ring.winSize &&
            forall s: nat :: rx.expectedSeqNum <= s < rx.expectedSeqNum + rx.ring.winSize && s != p.seqNum ==>
              At(cells, s) == At(rx.ring.cells, s)
  {
    hide Count, Flatten, OnAhead, Be32;
    BufferAlwaysOpen(file, top, rx);
    AheadStep(rx, p);
    LapInjective(rx.expectedSeqNum, p.seqNum, rx.ring.winSize);
  }

  /** The run that is flushed after the expected packet is the next stretch of the file. */
  lemma RunIsStretch(file: seq<seq<byte>>, top: nat, r: PacketRing, k: nat)
    requires r.Shaped() && top <= |file| + 1 && r.nextSeqNum >= 2
    requires Holds(file, r.cells, r.nextSeqNum - 1, top) && MaximalRun(r, k)
    ensures k < r.winSize && (k > 0 ==> r.nextSeqNum + k <= top)
    ensures r.nextSeqNum <= top ==> Waiting(r, k) == file[r.nextSeqNum - 1..r.nextSeqNum - 1 + k]
  {
    var base := r.nextSeqNum - 1;
    SlotAfterLap(base, r.winSize);
    assert At(r.cells, base).written && At(r.cells, base + r.winSize).written;
    assert k < r.winSize;
    if k > 0 {
      assert !At(r.cells, base + k).written;
    }
    var waiting := Waiting(r, k);
    forall j | 0 <= j < k
      ensures waiting[j] == At(r.cells, r.nextSeqNum + j).data == file[r.nextSeqNum - 1 + j]
    {
      assert !At(r.cells, r.nextSeqNum + j).written;
    }
  }

  /** After the flush the lap from the new expected number is in order again. */
  lemma HoldsAfterFlush(file: seq<seq<byte>>, top: nat, r: PacketRing, k: nat, d: PacketRing)
    requires r.Shaped() && d.Shaped() && d.winSize == r.winSize && top <= |file| + 1 && r.nextSeqNum >= 2
    requires Holds(file, r.cells, r.nextSeqNum - 1, top) && MaximalRun(r, k) && k < r.winSize
    requires WroteRun(r, k, d)
    ensures Holds(file, d.cells, d.nextSeqNum, top)
  {
    var base := d.nextSeqNum;
    assert At(d.cells, base) == At(r.cells, base);
    forall s: nat | base <= s < base + d.winSize
      ensures At(d.cells, s).written || (1 <= base < s < top && At(d.cells, s).data == file[s - 1])
    {
      if s < r.nextSeqNum + r.winSize {
        assert At(d.cells, s) == At(r.cells, s);
        SlotAfterLap(r.nextSeqNum - 1, r.winSize);
        if s == r.nextSeqNum - 1 + r.winSize {
          assert At(r.cells, s) == At(r.cells, r.nextSeqNum - 1);
        }
      } else {
        SlotAfterLap(s - r.winSize, r.winSize);
        assert At(d.cells, s) == At(d.cells, s - r.winSize) == FREE_CELL;
      }
    }
  }

  lemma OutputContinues(file: seq<seq<byte>>, n: nat, k: nat)
    requires 1 <= n && n + k <= |file|
    ensures Flatten(file[..n - 1]) + file[n - 1] + Flatten(file[n..n + k]) == Flatten(file[..n + k])
  {
    assert file[..n] == file[..n - 1] + [file[n - 1]];
    FlattenSnoc(file[..n - 1], file[n - 1]);
    assert file[..n + k] == file[..n] + file[n..n + k];
    FlattenConcat(file[..n], file[n..n + k]);
  }

  /** The ring `d` that a flush leaves behind, whatever its run, is in order again. */
  lemma FlushedInOrder(file: seq<seq<byte>>, top: nat, rx: Receiver, k: nat, d: PacketRing)
    requires InvDocumented(file, top, rx) && rx.expectedSeqNum < top
    requires d.Shaped() && d.winSize == rx.ring.winSize
    requires MaximalRun(Written(rx, file[rx.expectedSeqNum - 1]), k)
    requires WroteRun(Written(rx, file[rx.expectedSeqNum - 1]), k, d)
    requires d.storedPackets == Count(d.cells)
    ensures InvDocumented(file, top, rx.(ring := d, expectedSeqNum := d.nextSeqNum))
    ensures d.nextSeqNum > rx.expectedSeqNum
    ensures d.nextSeqNum < top ==> At(d.cells, d.nextSeqNum).written
  {
    hide Flatten, Count;
    var n := rx.expectedSeqNum;
    var r := Written(rx, file[n - 1]);
    assert At(rx.ring.cells, n).written && r.nextSeqNum == n + 1;
    RunIsStretch(file, top, r, k);
    HoldsAfterFlush(file, top, r, k, d);
    OutputContinues(file, n, k);
  }

  /** The expected packet and what follows on are written, and the ring stays in order. */
  lemma ExpectedIsWritten(file: seq<seq<byte>>, top: nat, rx: Receiver, p: Packet)
    requires InvDocumented(file, top, rx)
    requires rx.expectedSeqNum < top && p.payload == file[rx.expectedSeqNum - 1]
    ensures var next := Accept(Documented, rx, p);
            && InvDocumented(file, top, next)
            && next.done == rx.done && next.ring.winSize == rx.ring.winSize
            && next.expectedSeqNum > rx.expectedSeqNum
            && (next.expectedSeqNum < top ==> At(next.ring.cells, next.expectedSeqNum).written)
  {
    var r := Written(rx, p.payload);
    var d := FlushBuffer(Documented, r);
    var k := FlushWritesMaximalRun(Documented, r);
    DrainCounts(r, r.winSize);
    FlushedInOrder(file, top, rx, k, d);
  }

  /** Every fitting event keeps the documented receiver's invariant. */
  lemma DocumentedKeepsInv(file: seq<seq<byte>>, top: nat, rx: Receiver, e: Event)
    requires InvDocumented(file, top, rx) && FittingEvent(file, top, rx, e)
    requires forall k :: 0 <= k < |file| ==> file[k] != []
    ensures var next := RecvStep(Documented, rx, e).next;
            && InvDocumented(file, top, next)
            && next.expectedSeqNum >= rx.expectedSeqNum && next.ring.winSize == rx.ring.winSize
            && (HandsExpected(rx, e) ==> next.expectedSeqNum > rx.expectedSeqNum)
            && (HandsAhead(rx, e) ==>
                  !next.done && At(next.ring.cells, e.recv.packet.seqNum) == Cell(e.recv.packet.payload, false))
  {
    if HandsAhead(rx, e) {
      AheadIsBuffered(file, top, rx, e.recv.packet);
    } else if HandsExpected(rx, e) {
      ExpectedIsWritten(file, top, rx, e.recv.packet);
    }
  }

  lemma ReplyAcknowledges(rx: Receiver, e: Event)
    requires rx.ring.Shaped()
    ensures var Reaction(next, reply) := RecvStep(Documented, rx, e);
            reply.Some? && reply.value.flag == ACK_RR ==>
              HandsExpected(rx, e) && reply.value.seqNum == (next.expectedSeqNum - 1) % TWO_32
  {
  }

  lemma NothingReceived(file: seq<seq<byte>>, top: nat, rx: Receiver, e: Event)
    requires InvDocumented(file, top, rx) && (!e.ready || rx.done)
    ensures RecvStep(Documented, rx, e) == Reaction(rx.(done := true), None)
    ensures InvDocumented(file, top, rx.(done := true))
  {
  }

  lemma RRNumber(file: seq<seq<byte>>, top: nat, next: Receiver)
    requires InvDocumented(file, top, next)
    ensures (next.expectedSeqNum - 1) % TWO_32 == next.expectedSeqNum - 1
  {
  }

  /** One call of the documented `recvData`: the invariant is kept, and an RR names the last number passed. */
  lemma DocumentedStep(file: seq<seq<byte>>, top: nat, rx: Receiver, e: Event)
    requires InvDocumented(file, top, rx)
    requires e.ready && !rx.done ==> FittingEvent(file, top, rx, e)
    requires forall k :: 0 <= k < |file| ==> file[k] != []
    ensures var Reaction(next, reply) := RecvStep(Documented, rx, e);
            && InvDocumented(file, top, next)
            && next.expectedSeqNum >= rx.expectedSeqNum && next.ring.winSize == rx.ring.winSize
            && (reply.Some? && reply.value.flag == ACK_RR ==> reply.value.seqNum + 1 == next.expectedSeqNum)
  {
    if e.ready && !rx.done {
      DocumentedKeepsInv(file, top, rx, e);
      ReplyAcknowledges(rx, e);
      RRNumber(file, top, RecvStep(Documented, rx, e).next);
    } else {
      NothingReceived(file, top, rx, e);
    }
  }

  // ----- the receiver as written: the code

  /** What the calls of a run have read from the network, in order. */
  function Read(events: seq<Event>): seq<Received> {
    if events == [] then []
    else
      var e := events[|events| - 1];
      Read(events[..|events| - 1]) + if e.ready then [e.recv] else []
  }

  /** One more call takes the first of the arrivals that are left, if it reads at all. */
  lemma ReadSnoc(events: seq<Event>, e: Event, left: seq<Received>)
    requires e.ready ==> left != [] && e.recv == left[0]
    ensures Read(events + [e]) + (if e.ready then left[1..] else left) == Read(events) + left
  {
    assert (events + [e])[..|events|] == events;
    if e.ready {
      MoveFirst(Read(events), left);
    }
  }

  /** The variables of `transferFile`, the packet buffer and the replies sent so far. */
  class RcopySession {
    const pb: PacketBuffer
    var expectedSeqNum: u32
    var done: bool
    var replies: seq<Packet>

    ghost function View(): Receiver
      reads this, pb, pb.buffer
    {
      Receiver(pb.View(), expectedSeqNum, done)
    }

    constructor (winSize: u32)
      requires winSize > 0
      ensures fresh(pb) && fresh(pb.buffer) && pb.Valid()
      ensures View() == InitReceiver(winSize) && replies == []
    {
      pb := new PacketBuffer(winSize);
      expectedSeqNum, done, replies := 1, false, [];
    }

    method Reply(flag: byte, seqNum: u32, payload: seq<byte>)
      modifies this`replies
      ensures replies == old(replies) + [Packet(flag, seqNum, payload)]
    {
      replies := replies + [Packet(flag, seqNum, payload)];
    }

    /** `recvData`; the result says whether the state machine is done. */
    method RecvData(e: Event) returns (finished: bool)
      requires pb.Valid() && !done
      modifies this`expectedSeqNum, this`replies, pb, pb.buffer
      ensures pb.Valid()
      ensures var Reaction(next, reply) := RecvStep(AsWritten, old(View()), e);
              && View().(done := finished) == next
              && replies == if reply.Some? then old(replies) + [reply.value] else old(replies)
    {
      if !e.ready {
        return true;
      }
      if e.recv.CrcError? {
        return false;
      }
      var p := e.recv.packet;
      if p.flag == END_OF_FILE {
        Reply(EOF_ACK, expectedSeqNum, [e.junk]);
        return true;
      } else if p.flag == DATA || p.flag == SREJ_DATA || p.flag == TIMEOUT_DATA {
        if p.seqNum > expectedSeqNum {
          var open := pb.BufferOpen();
          if open {
            var r := pb.AddPacket(p.payload, p.seqNum);
            if r < 0 {
              return true;
            }
          }
          Reply(SREJ, expectedSeqNum, Be32(expectedSeqNum));
          return false;
        } else if p.seqNum == expectedSeqNum {
          var need := pb.NeedFlush();
          if need {
            var bytes := pb.Flush();
            expectedSeqNum := pb.nextSeqNum;
          } else {
            pb.outFile := pb.outFile + p.payload;
            expectedSeqNum := Add32(expectedSeqNum, 1);
          }
          var last: u32 := (expectedSeqNum - 1) % TWO_32;
          Reply(ACK_RR, last, Be32(last));
          return false;
        }
      } else {
        return true;
      }
      finished := false;
    }

    /**
     `transferFile` from the open output file on: calls `recvData` until it is done. Some
     of the arrivals may never be seen, if `select` times out first; it does when they
     are used up.
     */
    method TransferFile(arrivals: seq<Received>, junk: byte) returns (ghost events: seq<Event>)
      requires pb.Valid() && View() == InitReceiver(pb.winSize) && replies == []
      modifies this, pb, pb.buffer
      ensures pb.Valid() && done
      ensures (View(), replies) == Receive(AsWritten, pb.winSize, events)
      ensures Read(events) <= arrivals
      ensures forall e <- events :: e.recv.CrcError? || e.recv in arrivals
      ensures Increasing(RRs(replies)) <==> NothingAfterWrap(pb.winSize, events)
      ensures (forall m <- arrivals :: m.Got? ==> m.packet.seqNum < TWO_32 - 1) ==> Increasing(RRs(replies))
    {
      events := [];
      var left := arrivals;
      while !done
        invariant pb.Valid()
        invariant (View(), replies) == Receive(AsWritten, pb.winSize, events)
        invariant Read(events) + left == arrivals
        invariant forall e <- events :: e.recv.CrcError? || e.recv in arrivals
        decreases |left|, !done
      {
        var ready: bool := *;
        ready := ready && left != [];
        var e := Event(ready, if left == [] then CrcError else left[0], junk);
        ReceiveSnoc(AsWritten, pb.winSize, events, e);
        ReadSnoc(events, e, left);
        var finished := RecvData(e);
        done := finished;
        events := events + [e];
        if ready {
          left := left[1..];
        }
      }
      AcknowledgementsIncrease(pb.winSize, events);
      if forall m <- arrivals :: m.Got? ==> m.packet.seqNum < TWO_32 - 1 {
        LowNumbersNeverWrap(pb.winSize, events);
      }
    }
  }
}
