/**
 Runs of the whole system that show where a property fails: each is a list of actions
 from the start, for every file that is long enough.
 */
module Runs {
  import opened Bytes
  import opened Ring
  import opened Srej
  import opened Server
  import opened Buffer
  import opened Rcopy
  import opened Transfer
  import opened AsWrittenSystem
  import opened WriteOrder

  // ----- what the runs are made of

  /** A turn of the server in which nothing arrives. */
  const IDLE := ServerTurn(false, true, [], Intact)

  function Idle(n: nat): seq<Action> {
    seq(n, _ => IDLE)
  }

  /** The first transmission of chunk `n` is delivered intact. */
  function Deliver(setup: Setup, n: u32): Action
    requires 1 <= n <= |setup.file|
  {
    RcopyTurn(true, FirstWire(setup, n), Intact, 0)
  }

  function RR(setup: Setup, n: u32): seq<byte> {
    Encode(setup.rcopyHost, Packet(ACK_RR, n, Be32(n)))
  }

  /** Feedback is noticed, and turns out to be the RR for `n`. */
  function HearRR(setup: Setup, n: u32): seq<Action> {
    [ServerTurn(true, true, [], Intact)] + [ServerTurn(true, true, RR(setup, n), Intact)]
  }

  /** The server is in this state, with the window [lower, curr), and has not sent its end of file. */
  predicate Sending(s: Session, state: State, lower: nat, curr: nat) {
    s.state == state && !s.eofSent && s.win.lower == lower && s.win.Curr() == curr
  }

  /** From SEND_DATA the next chunk goes out. */
  lemma SendNext(setup: Setup, acts: seq<Action>, lower: nat, curr: nat)
    requires SetupOk(setup) && Sending(Exec(setup, acts).server, State.SendPacket, lower, curr)
    requires curr < lower + setup.winSize && curr <= |setup.file|
    ensures var sys, after := Exec(setup, acts), Exec(setup, acts + [IDLE]);
            && Sending(after.server, Waiter, lower, curr + 1)
            && after.rx == sys.rx && after.toServer == sys.toServer
  {
    ReachableSender(setup, acts);
    ExecSnoc(setup, acts, IDLE);
  }

  /** From WAITER the server returns to sending, and sends. */
  lemma WaitAndSend(setup: Setup, acts: seq<Action>, lower: nat, curr: nat)
    requires SetupOk(setup) && Sending(Exec(setup, acts).server, Waiter, lower, curr)
    requires curr < lower + setup.winSize && curr <= |setup.file|
    ensures var sys, after := Exec(setup, acts), Exec(setup, acts + [IDLE] + [IDLE]);
            && Sending(after.server, Waiter, lower, curr + 1)
            && after.rx == sys.rx && after.toServer == sys.toServer
  {
    ReachableSender(setup, acts);
    ExecSnoc(setup, acts, IDLE);
    SendNext(setup, acts + [IDLE], lower, curr);
  }

  lemma IdleTwice(acts: seq<Action>, n: nat)
    ensures acts + Idle(n + 2) == acts + Idle(n) + [IDLE] + [IDLE]
  {
    assert Idle(n + 2) == Idle(n) + [IDLE] + [IDLE];
  }

  /** `n` chunks go out one after the other. */
  lemma {:induction false} SendSeveral(setup: Setup, acts: seq<Action>, lower: nat, curr: nat, n: nat)
    requires SetupOk(setup) && Sending(Exec(setup, acts).server, State.SendPacket, lower, curr)
    requires n >= 1 && curr + n <= lower + setup.winSize && curr + n <= |setup.file| + 1
    ensures var sys, after := Exec(setup, acts), Exec(setup, acts + Idle(2 * n - 1));
            && Sending(after.server, Waiter, lower, curr + n)
            && after.rx == sys.rx && after.toServer == sys.toServer
    decreases n
  {
    hide Exec;
    if n == 1 {
      SendNext(setup, acts, lower, curr);
      assert Idle(1) == [IDLE];
    } else {
      SendSeveral(setup, acts, lower, curr, n - 1);
      WaitAndSend(setup, acts + Idle(2 * n - 3), lower, curr + n - 1);
      IdleTwice(acts, 2 * n - 3);
    }
  }

  /** The first `n` chunks go out. */
  lemma StartSending(setup: Setup, n: nat)
    requires SetupOk(setup) && 1 <= n <= setup.winSize && n <= |setup.file|
    ensures Sending(Exec(setup, Idle(2 * n - 1)).server, Waiter, 1, n + 1)
    ensures Exec(setup, Idle(2 * n - 1)).rx == InitReceiver(setup.winSize)
  {
    SendSeveral(setup, [], 1, 1, n);
    assert [] + Idle(2 * n - 1) == Idle(2 * n - 1);
  }

  lemma ReadsRR(setup: Setup, s: Session, lower: nat, curr: nat, n: u32)
    requires Sending(s, HandleFeedback, lower, curr) && lower <= n + 1 <= curr < TWO_32
    ensures var a := ServerTurn(true, true, RR(setup, n), Intact);
            Sending(Next(setup.file, s, ServerEnv(setup, a)).next, State.SendPacket, n + 1, curr)
            && Next(setup.file, s, ServerEnv(setup, a)).out == []
  {
    hide Encode, Decode, Be32, Add32;
    AddWraps(n, 1);
    DeliveredIsPacketOrCrcError(setup.rcopyHost, setup.serverHost, Packet(ACK_RR, n, Be32(n)), Intact);
  }

  /** An RR that has been sent slides the waiting server's window. */
  lemma HearsRR(setup: Setup, acts: seq<Action>, lower: nat, curr: nat, n: u32)
    requires SetupOk(setup) && Sending(Exec(setup, acts).server, Waiter, lower, curr)
    requires RR(setup, n) in Exec(setup, acts).toServer && lower <= n + 1 <= curr < TWO_32
    ensures var sys, after := Exec(setup, acts), Exec(setup, acts + HearRR(setup, n));
            && Sending(after.server, State.SendPacket, n + 1, curr)
            && after.rx == sys.rx && after.toServer == sys.toServer
  {
    var notice := ServerTurn(true, true, [], Intact);
    var read := ServerTurn(true, true, RR(setup, n), Intact);
    ExecSnoc(setup, acts, notice);
    ReadsRR(setup, Exec(setup, acts + [notice]).server, lower, curr, n);
    ExecSnoc(setup, acts + [notice], read);
    assert acts + HearRR(setup, n) == acts + [notice] + [read];
  }

  /** A chunk that has been sent reaches the receiver. */
  lemma Delivers(setup: Setup, acts: seq<Action>, n: u32)
    requires SetupOk(setup) && 1 <= n <= |setup.file| && n < Exec(setup, acts).server.win.Curr()
    ensures var sys, after := Exec(setup, acts), Exec(setup, acts + [Deliver(setup, n)]);
            var Reaction(next, reply) := RecvStep(setup.rule, sys.rx, Data(n, setup.file[n - 1]));
            && after.server == sys.server && after.rx == next && after.toRcopy == sys.toRcopy
            && sys.toServer <= after.toServer
            && (reply.Some? ==> Encode(setup.rcopyHost, reply.value) in after.toServer)
  {
    hide Exec, Encode, Decode, Be32;
    EveryChunkIsOut(setup, acts);
    DeliveredIsPacketOrCrcError(
      setup.serverHost, setup.rcopyHost, Packet(DATA, n, setup.file[n - 1]), Intact);
    ExecSnoc(setup, acts, Deliver(setup, n));
  }

  // ----- as written: a packet of the window is rejected

  /** The chunks are sent in order; chunk 3 arrives, then chunk 2. */
  function RejectionActs(setup: Setup): seq<Action>
    requires |setup.file| >= 3
  {
    Idle(5) + [Deliver(setup, 3)] + [Deliver(setup, 2)]
  }

  lemma ThreeThenTwo(rx: Receiver, a: seq<byte>, b: seq<byte>)
    requires rx.ring.winSize >= 3 && rx == InitReceiver(rx.ring.winSize) && a != [] && b != []
    requires rx.ring.winSize < TWO_32 - 3
    ensures var once := RecvStep(AsWritten, rx, Data(3, b)).next;
            var twice := RecvStep(AsWritten, once, Data(2, a)).next;
            once.ring.Shaped() && twice.done && twice.ring.out == [] && twice.expectedSeqNum == 1
  {
  }

  /** Chunk 2, in the sender's window and next but one for the receiver, ends the session: nothing is written. */
  lemma RejectionRun(setup: Setup)
    requires SetupOk(setup) && setup.rule.AsWritten? && setup.winSize >= 3 && |setup.file| >= 3
    ensures var end := Exec(setup, RejectionActs(setup));
            && end.rx.done && end.rx.ring.out == [] && end.rx.expectedSeqNum == 1
            && Sending(end.server, Waiter, 1, 4)
  {
    hide Exec;
    StartSending(setup, 3);
    Delivers(setup, Idle(5), 3);
    Delivers(setup, Idle(5) + [Deliver(setup, 3)], 2);
    ThreeThenTwo(InitReceiver(setup.winSize), setup.file[1], setup.file[2]);
  }

  // ----- as written: a packet left behind is written again, and the windows are no longer nested

  /** A ring of four slots. */
  function Four(a: Cell, b: Cell, c: Cell, d: Cell, base: u32, stored: int, out: seq<byte>): PacketRing {
    PacketRing(4, [a, b, c, d], base, stored, out)
  }

  function Full(chunk: seq<byte>): Cell {
    Cell(chunk, false)
  }

  /** Chunks 2 and 4 arrive. */
  lemma TwoAndFour(b: seq<byte>, d: seq<byte>)
    requires b != [] && d != []
    ensures var one := Receiver(Four(FREE_CELL, FREE_CELL, Full(b), FREE_CELL, 2, 1, []), 1, false);
            && RecvStep(AsWritten, InitReceiver(4), Data(2, b)).next == one
            && RecvStep(AsWritten, one, Data(4, d)).next
               == Receiver(Four(Full(d), FREE_CELL, Full(b), FREE_CELL, 2, 2, []), 1, false)
  {
    assert InitRing(4).cells == [FREE_CELL, FREE_CELL, FREE_CELL, FREE_CELL];
  }

  lemma FlushTwo(b: seq<byte>, d: seq<byte>)
    ensures FlushBuffer(AsWritten, Four(Full(d), FREE_CELL, Full(b), FREE_CELL, 2, 2, []))
         == Four(Full(d), FREE_CELL, FREE_CELL, FREE_CELL, 3, 0, b)
  {
    var r := Four(Full(d), FREE_CELL, Full(b), FREE_CELL, 2, 2, []);
    var once := Four(Full(d), FREE_CELL, FREE_CELL, FREE_CELL, 3, 1, b);
    assert WriteNext(r) == once;
    assert Drain(r, 4) == Drain(once, 3) == once;
  }

  lemma CountFour(d: seq<byte>)
    ensures Count([Full(d), FREE_CELL, FREE_CELL, FREE_CELL]) == 1
  {
    var cells := [Full(d), FREE_CELL, FREE_CELL, FREE_CELL];
    CountUpdate(cells, 0, FREE_CELL);
    CountBound(cells[0 := FREE_CELL]);
  }

  lemma ThreeArrivals(winSize: u32, e: Event, f: Event, g: Event)
    requires winSize > 0
    ensures var one := RecvStep(AsWritten, InitReceiver(winSize), e).next;
            one.ring.Shaped() &&
            var two := RecvStep(AsWritten, one, f).next;
            two.ring.Shaped() &&
            Receive(AsWritten, winSize, [e, f, g]).0 == RecvStep(AsWritten, two, g).next
  {
    ReceiveSnoc(AsWritten, winSize, [], e);
    ReceiveSnoc(AsWritten, winSize, [e], f);
    ReceiveSnoc(AsWritten, winSize, [e, f], g);
    assert [] + [e] == [e] && [e] + [f] == [e, f] && [e, f] + [g] == [e, f, g];
  }

  /**
   Chunk 1 repairs the loss: the flush stops at the gap, and the count forgets packet 4,
   which still waits in the ring.
   */
  lemma GapIsForgotten(a: seq<byte>, b: seq<byte>, d: seq<byte>)
    requires b != [] && d != []
    ensures var rx := Receive(AsWritten, 4, [Data(2, b), Data(4, d), Data(1, a)]).0;
            && rx == Receiver(Four(Full(d), FREE_CELL, FREE_CELL, FREE_CELL, 3, 0, b), 3, false)
            && rx.ring.storedPackets == 0 && Count(rx.ring.cells) == 1
  {
    TwoAndFour(b, d);
    FlushTwo(b, d);
    ThreeArrivals(4, Data(2, b), Data(4, d), Data(1, a));
    CountFour(d);
  }

  /** Chunk 3 arrives in its turn, then chunk 7. */
  lemma ThreeAndSeven(b: seq<byte>, c: seq<byte>, d: seq<byte>, g: seq<byte>)
    requires g != []
    ensures var two := Receiver(Four(Full(d), FREE_CELL, FREE_CELL, FREE_CELL, 3, 0, b), 3, false);
            var three := Receiver(Four(Full(d), FREE_CELL, FREE_CELL, FREE_CELL, 3, 0, b + c), 4, false);
            && RecvStep(AsWritten, two, Data(3, c)) == Reaction(three, Some(Packet(ACK_RR, 3, Be32(3))))
            && RecvStep(AsWritten, three, Data(7, g)).next
               == Receiver(Four(Full(d), FREE_CELL, FREE_CELL, Full(g), 7, 1, b + c), 4, false)
  {
  }

  /** The flush runs on from packet 7 into the slot of 8, where packet 4 still waits. */
  lemma FlushSeven(d: seq<byte>, g: seq<byte>, out: seq<byte>)
    ensures FlushBuffer(AsWritten, Four(Full(d), FREE_CELL, FREE_CELL, Full(g), 7, 1, out))
         == Four(FREE_CELL, FREE_CELL, FREE_CELL, FREE_CELL, 9, 0, out + g + d)
  {
    var r := Four(Full(d), FREE_CELL, FREE_CELL, Full(g), 7, 1, out);
    var once := Four(Full(d), FREE_CELL, FREE_CELL, FREE_CELL, 8, 0, out + g);
    var twice := Four(FREE_CELL, FREE_CELL, FREE_CELL, FREE_CELL, 9, -1, out + g + d);
    assert WriteNext(r) == once && WriteNext(once) == twice;
    assert Drain(r, 4) == Drain(once, 3) == Drain(twice, 2) == twice;
  }

  function FirstHalf(setup: Setup): seq<Action>
    requires |setup.file| >= 7
  {
    Idle(7) + [Deliver(setup, 2)] + [Deliver(setup, 4)] + [Deliver(setup, 1)] + [Deliver(setup, 3)]
  }

  /** The server hears that 3 has been passed, and sends 5 to 7; then 7 arrives. */
  function UpToSeven(setup: Setup): seq<Action>
    requires |setup.file| >= 7
  {
    FirstHalf(setup) + HearRR(setup, 3) + Idle(5) + [Deliver(setup, 7)]
  }

  /** Then 4 arrives. */
  function OvershootActs(setup: Setup): seq<Action>
    requires |setup.file| >= 7
  {
    UpToSeven(setup) + [Deliver(setup, 4)]
  }

  lemma TwoOut(setup: Setup)
    requires SetupOk(setup) && setup.rule.AsWritten? && setup.winSize == 4 && |setup.file| >= 7
    ensures var acts := Idle(7) + [Deliver(setup, 2)];
            && Sending(Exec(setup, acts).server, Waiter, 1, 5)
            && Exec(setup, acts).rx
               == Receiver(Four(FREE_CELL, FREE_CELL, Full(setup.file[1]), FREE_CELL, 2, 1, []), 1, false)
  {
    hide Exec;
    StartSending(setup, 4);
    Delivers(setup, Idle(7), 2);
    TwoAndFour(setup.file[1], setup.file[3]);
  }

  lemma FourOut(setup: Setup)
    requires SetupOk(setup) && setup.rule.AsWritten? && setup.winSize == 4 && |setup.file| >= 7
    ensures var acts, file := Idle(7) + [Deliver(setup, 2)] + [Deliver(setup, 4)], setup.file;
            && Sending(Exec(setup, acts).server, Waiter, 1, 5)
            && Exec(setup, acts).rx
               == Receiver(Four(Full(file[3]), FREE_CELL, Full(file[1]), FREE_CELL, 2, 2, []), 1, false)
  {
    hide Exec;
    TwoOut(setup);
    Delivers(setup, Idle(7) + [Deliver(setup, 2)], 4);
    TwoAndFour(setup.file[1], setup.file[3]);
  }

  lemma OneOut(setup: Setup)
    requires SetupOk(setup) && setup.rule.AsWritten? && setup.winSize == 4 && |setup.file| >= 7
    ensures var acts := Idle(7) + [Deliver(setup, 2)] + [Deliver(setup, 4)] + [Deliver(setup, 1)];
            && Sending(Exec(setup, acts).server, Waiter, 1, 5)
            && Exec(setup, acts).rx
               == Receiver(Four(Full(setup.file[3]), FREE_CELL, FREE_CELL, FREE_CELL, 3, 0, setup.file[1]), 3, false)
  {
    hide Exec;
    FourOut(setup);
    FlushTwo(setup.file[1], setup.file[3]);
    Delivers(setup, Idle(7) + [Deliver(setup, 2)] + [Deliver(setup, 4)], 1);
  }

  lemma FirstHalfRun(setup: Setup)
    requires SetupOk(setup) && setup.rule.AsWritten? && setup.winSize == 4 && |setup.file| >= 7
    ensures var sys, file := Exec(setup, FirstHalf(setup)), setup.file;
            && Sending(sys.server, Waiter, 1, 5) && RR(setup, 3) in sys.toServer
            && sys.rx == Receiver(
                 Four(Full(file[3]), FREE_CELL, FREE_CELL, FREE_CELL, 3, 0, file[1] + file[2]), 4, false)
  {
    hide Exec;
    var file := setup.file;
    OneOut(setup);
    Delivers(setup, Idle(7) + [Deliver(setup, 2)] + [Deliver(setup, 4)] + [Deliver(setup, 1)], 3);
    ThreeAndSeven(file[1], file[2], file[3], file[6]);
  }

  lemma SevenOut(setup: Setup)
    requires SetupOk(setup) && setup.rule.AsWritten? && setup.winSize == 4 && |setup.file| >= 7
    ensures var sys := Exec(setup, FirstHalf(setup) + HearRR(setup, 3) + Idle(5));
            && Sending(sys.server, Waiter, 4, 8) && sys.rx == Exec(setup, FirstHalf(setup)).rx
  {
    hide Exec;
    FirstHalfRun(setup);
    HearsRR(setup, FirstHalf(setup), 1, 5, 3);
    SendSeveral(setup, FirstHalf(setup) + HearRR(setup, 3), 4, 5, 3);
  }

  lemma SevenWaits(setup: Setup)
    requires SetupOk(setup) && setup.rule.AsWritten? && setup.winSize == 4 && |setup.file| >= 7
    ensures var sys, file := Exec(setup, UpToSeven(setup)), setup.file;
            && Sending(sys.server, Waiter, 4, 8)
            && sys.rx == Receiver(
                 Four(Full(file[3]), FREE_CELL, FREE_CELL, Full(file[6]), 7, 1, file[1] + file[2]), 4, false)
  {
    hide Exec;
    FirstHalfRun(setup);
    SevenOut(setup);
    Delivers(setup, FirstHalf(setup) + HearRR(setup, 3) + Idle(5), 7);
    ThreeAndSeven(setup.file[1], setup.file[2], setup.file[3], setup.file[6]);
  }

  /**
   Chunk 4 is written as number 8, which has not been sent: the receiver then expects 9,
   beyond the sender's next number 8, and chunks 1, 4, 5 and 6 are not where they belong.
   */
  lemma OvershootRun(setup: Setup)
    requires SetupOk(setup) && setup.rule.AsWritten? && setup.winSize == 4 && |setup.file| >= 7
    ensures var sys, file := Exec(setup, OvershootActs(setup)), setup.file;
            && Sending(sys.server, Waiter, 4, 8) && sys.rx.expectedSeqNum == 9
            && sys.rx.ring.out == file[1] + file[2] + file[6] + file[3]
  {
    hide Exec;
    SevenWaits(setup);
    Delivers(setup, UpToSeven(setup), 4);
    FlushSeven(setup.file[3], setup.file[6], setup.file[1] + setup.file[2]);
  }

  /** So that run is not nested, and by the theorems one of its flushes found no free slot and residue was left. */
  lemma OvershootIsNotNested(setup: Setup)
    requires SetupOk(setup) && setup.rule.AsWritten? && setup.winSize == 4 && |setup.file| >= 7
    ensures !AlwaysNested(setup, OvershootActs(setup)) && !FlushesEndBelow(setup, OvershootActs(setup))
    ensures !AlwaysClean(setup, OvershootActs(setup)) && !NeverLeavesResidue(setup, OvershootActs(setup))
  {
    hide Exec;
    OvershootRun(setup);
    NestedIffFlushesEndBelow(setup, OvershootActs(setup));
    CleanIffNoResidueLeft(setup, OvershootActs(setup));
    if AlwaysClean(setup, OvershootActs(setup)) {
      CleanRunsAreNested(setup, OvershootActs(setup));
    }
  }

  lemma {:induction false} ServerTurnsWriteNothing(setup: Setup, acts: seq<Action>, n: nat)
    requires setup.winSize > 0 && FlushesStop(setup, acts)
    ensures FlushesStop(setup, acts + Idle(n))
    decreases n
  {
    if n == 0 {
      assert acts + Idle(0) == acts;
    } else {
      ServerTurnsWriteNothing(setup, acts, n - 1);
      assert (acts + Idle(n))[..|acts| + n - 1] == acts + Idle(n - 1);
    }
  }

  /** One more delivery keeps the order if it does not flush, or if its flush stops in time. */
  lemma DeliveryStopsIff(setup: Setup, acts: seq<Action>, n: u32)
    requires SetupOk(setup) && 1 <= n <= |setup.file| && n < Exec(setup, acts).server.win.Curr()
    requires !Exec(setup, acts).rx.done
    ensures var rx := Exec(setup, acts).rx;
            FlushesStop(setup, acts + [Deliver(setup, n)]) <==>
              FlushesStop(setup, acts) &&
              (n == rx.expectedSeqNum && rx.ring.NeedFlush() ==> StopsBeforeStale(rx.ring, Labels(setup, acts)))
  {
    EveryChunkIsOut(setup, acts);
    DeliveredIsPacketOrCrcError(
      setup.serverHost, setup.rcopyHost, Packet(DATA, n, setup.file[n - 1]), Intact);
    assert (acts + [Deliver(setup, n)])[..|acts|] == acts;
  }

  /** The labels of the two packets that wait when chunk 1 arrives are 4 and 2. */
  lemma FlushTwoStops(setup: Setup, acts: seq<Action>)
    requires SetupOk(setup) && setup.rule.AsWritten? && setup.winSize == 4 && |setup.file| >= 7
    requires acts == Idle(7) + [Deliver(setup, 2)] + [Deliver(setup, 4)]
    ensures StopsBeforeStale(Exec(setup, acts).rx.ring, Labels(setup, acts))
  {
    hide Exec, Labels;
    FourOut(setup);
    ReachableAsWritten(setup, acts);
    var cells := Exec(setup, acts).rx.ring.cells;
    assert !cells[0].written && cells[1].written && !cells[2].written && cells[3].written;
  }

  lemma FourIsFour(n: nat)
    requires 1 <= n < 8 && Slot(n, 4) == 0
    ensures n == 4
  {
  }

  /** When 4 arrives again, its earlier copy waits in the slot of 8, right behind 7. */
  lemma FlushSevenRunsOn(setup: Setup)
    requires SetupOk(setup) && setup.rule.AsWritten? && setup.winSize == 4 && |setup.file| >= 7
    ensures !StopsBeforeStale(Exec(setup, UpToSeven(setup)).rx.ring, Labels(setup, UpToSeven(setup)))
  {
    hide Exec, Labels;
    SevenWaits(setup);
    ReachableAsWritten(setup, UpToSeven(setup));
    var r, labels := Exec(setup, UpToSeven(setup)).rx.ring, Labels(setup, UpToSeven(setup));
    assert !r.cells[0].written && !r.cells[3].written && Slot(7, 4) == 3 && Slot(8, 4) == 0;
    FourIsFour(labels[0]);
    assert !FreeBefore(r, 8);
  }

  /** So packet 4 is written behind packet 7, out of order. */
  lemma OvershootIsOutOfOrder(setup: Setup)
    requires SetupOk(setup) && setup.rule.AsWritten? && setup.winSize == 4 && |setup.file| >= 7
    ensures !Increasing(WrittenNums(setup, OvershootActs(setup)))
  {
    hide Exec, Labels, FlushesStop, StopsBeforeStale, WrittenNums;
    SevenWaits(setup);
    FlushSevenRunsOn(setup);
    DeliveryStopsIff(setup, UpToSeven(setup), 4);
    WrittenInOrderIff(setup, OvershootActs(setup));
  }

  lemma NothingFlushedYet(setup: Setup)
    requires setup.winSize > 0
    ensures FlushesStop(setup, [])
  {
  }

  lemma FirstHalfInOrder(setup: Setup)
    requires SetupOk(setup) && setup.rule.AsWritten? && setup.winSize == 4 && |setup.file| >= 7
    ensures FlushesStop(setup, FirstHalf(setup))
  {
    hide Exec, Labels, FlushesStop, StopsBeforeStale;
    var acts := Idle(7) + [Deliver(setup, 2)] + [Deliver(setup, 4)];
    NothingFlushedYet(setup);
    ServerTurnsWriteNothing(setup, [], 7);
    assert [] + Idle(7) == Idle(7);
    StartSending(setup, 4);
    DeliveryStopsIff(setup, Idle(7), 2);
    TwoOut(setup);
    DeliveryStopsIff(setup, Idle(7) + [Deliver(setup, 2)], 4);
    FourOut(setup);
    FlushTwoStops(setup, acts);
    DeliveryStopsIff(setup, acts, 1);
    OneOut(setup);
    DeliveryStopsIff(setup, acts + [Deliver(setup, 1)], 3);
  }

  lemma LeavesFour(setup: Setup)
    requires SetupOk(setup) && setup.rule.AsWritten? && setup.winSize == 4 && |setup.file| >= 7
    ensures !NeverLeavesResidue(setup, FirstHalf(setup) + [Deliver(setup, 4)])
  {
    var acts, a := FirstHalf(setup), Deliver(setup, 4);
    FirstHalfRun(setup);
    EveryChunkIsOut(setup, acts);
    DeliveredIsPacketOrCrcError(
      setup.serverHost, setup.rcopyHost, Packet(DATA, 4, setup.file[3]), Intact);
    assert (acts + [a])[..|acts|] == acts;
    hide Exec;
    assert LeavesResidue(Exec(setup, acts).rx, Labels(setup, acts), RcopyEvent(setup, a));
  }

  /**
   Residue is not a collision: after 2, 4, 1, 3, 4 packet 4 has been written in its turn and
   still waits in the ring, yet all that has been written came in order.
   */
  lemma ResidueInOrder(setup: Setup)
    requires SetupOk(setup) && setup.rule.AsWritten? && setup.winSize == 4 && |setup.file| >= 7
    ensures var acts := FirstHalf(setup) + [Deliver(setup, 4)];
            !AlwaysClean(setup, acts) && Increasing(WrittenNums(setup, acts))
  {
    hide Exec, Labels, FlushesStop, AlwaysClean, NeverLeavesResidue, WrittenNums;
    var acts := FirstHalf(setup) + [Deliver(setup, 4)];
    LeavesFour(setup);
    CleanIffNoResidueLeft(setup, acts);
    FirstHalfInOrder(setup);
    FirstHalfRun(setup);
    DeliveryStopsIff(setup, FirstHalf(setup), 4);
    WrittenInOrderIff(setup, acts);
  }

  // ----- under either rule: the session ends before the file is complete

  function EofWire(setup: Setup, n: u32): seq<byte> {
    Encode(setup.serverHost, Packet(END_OF_FILE, n, [0]))
  }

  /** The end of file and its acknowledgement get through. */
  function LastActs(setup: Setup, n: u32): seq<Action> {
    [RcopyTurn(true, EofWire(setup, n), Intact, 0)]
    + [ServerTurn(true, true, Encode(setup.rcopyHost, Packet(EOF_ACK, 1, [0])), Intact)]
  }

  /** The server sends `n` chunks and the end of file. */
  function SendAll(n: nat): seq<Action>
    requires n >= 1
  {
    Idle(2 * n - 1) + [IDLE] + [IDLE]
  }

  /** From WAITER, with everything read and room in the window, END_OF_FILE goes out. */
  lemma SendEof(setup: Setup, acts: seq<Action>, lower: nat, curr: u32)
    requires SetupOk(setup) && Sending(Exec(setup, acts).server, Waiter, lower, curr)
    requires curr == |setup.file| + 1 < lower + setup.winSize
    ensures var sys, after := Exec(setup, acts), Exec(setup, acts + [IDLE] + [IDLE]);
            && after.server.state == WaitEofAck && after.rx == sys.rx
            && EofWire(setup, curr) in after.toRcopy
  {
    ReachableSender(setup, acts);
    ExecSnoc(setup, acts, IDLE);
    ExecSnoc(setup, acts + [IDLE], IDLE);
  }

  /** The end of file is out, and nothing has arrived. */
  predicate AllLost(setup: Setup, sys: System, eofNum: u32) {
    sys.server.state == WaitEofAck && sys.rx == InitReceiver(setup.winSize) && EofWire(setup, eofNum) in sys.toRcopy
  }

  predicate EndedEmpty(sys: System) {
    sys.server.state == State.Done && sys.rx.done && sys.rx.ring.out == []
  }

  lemma AllSentAndLost(setup: Setup, n: nat)
    requires SetupOk(setup) && 1 <= n == |setup.file| < setup.winSize
    ensures AllLost(setup, Exec(setup, SendAll(n)), n + 1)
  {
    hide Exec;
    StartSending(setup, n);
    SendEof(setup, Idle(2 * n - 1), 1, n + 1);
  }

  lemma EndsWithNothing(setup: Setup, acts: seq<Action>, eofNum: u32)
    requires SetupOk(setup) && AllLost(setup, Exec(setup, acts), eofNum)
    ensures EndedEmpty(Exec(setup, acts + LastActs(setup, eofNum)))
  {
    hide Exec;
    EofAckEndsBothSides(setup, acts, eofNum, 0);
    var eof := RcopyTurn(true, EofWire(setup, eofNum), Intact, 0);
    var ack := ServerTurn(true, true, Encode(setup.rcopyHost, Packet(EOF_ACK, 1, [0])), Intact);
    assert acts + [eof] + [ack] == acts + LastActs(setup, eofNum);
  }

  /** For every file shorter than the window, both sides may end with nothing written. */
  lemma EarlyEndRun(setup: Setup, n: nat)
    requires SetupOk(setup) && 1 <= n == |setup.file| < setup.winSize
    ensures EndedEmpty(Exec(setup, SendAll(n) + LastActs(setup, n + 1)))
  {
    hide Exec;
    AllSentAndLost(setup, n);
    EndsWithNothing(setup, SendAll(n), n + 1);
  }

  // ----- under either rule: a lost RR for a full window

  /** Chunks 1 to `n` are delivered in order. */
  function DeliverAll(setup: Setup, n: nat): (acts: seq<Action>)
    requires n <= |setup.file| < TWO_32
    ensures |acts| == n
  {
    if n == 0 then [] else DeliverAll(setup, n - 1) + [Deliver(setup, n)]
  }

  /** A window full of chunks is sent and received. */
  function FillWindow(setup: Setup): seq<Action>
    requires 1 <= setup.winSize <= |setup.file| < TWO_32
  {
    Idle(2 * setup.winSize - 1) + DeliverAll(setup, setup.winSize)
  }

  /** The receiver has written chunks 1 to `n`, and its ring is empty. */
  predicate ReceivedInOrder(file: seq<seq<byte>>, rx: Receiver, n: nat)
    requires n <= |file|
  {
    && rx.ring.Shaped() && !rx.done && rx.expectedSeqNum == n + 1
    && rx.ring.storedPackets == 0 && AllWritten(rx.ring.cells) && rx.ring.out == Flatten(file[..n])
  }

  /** With nothing in the ring, either rule writes the expected chunk and leaves the ring empty. */
  lemma AcceptsIntoEmptyRing(rule: Rule, rx: Receiver, p: Packet)
    requires rx.ring.Shaped() && rx.ring.storedPackets == 0 && AllWritten(rx.ring.cells)
    requires rx.expectedSeqNum + 1 < TWO_32
    ensures var next := Accept(rule, rx, p);
            && next.ring.cells == rx.ring.cells && next.ring.storedPackets == 0 && next.ring.winSize == rx.ring.winSize
            && next.ring.out == rx.ring.out + p.payload
            && next.expectedSeqNum == rx.expectedSeqNum + 1 && next.done == rx.done
  {
    assert At(rx.ring.cells, rx.expectedSeqNum + 1).written;
  }

  lemma NextInOrder(rule: Rule, file: seq<seq<byte>>, rx: Receiver, n: nat)
    requires n < |file| < TWO_32 - 1 && ReceivedInOrder(file, rx, n)
    ensures ReceivedInOrder(file, RecvStep(rule, rx, Data(n + 1, file[n])).next, n + 1)
  {
    hide RecvStep, Accept, AllWritten, Flatten, Be32;
    CallKinds(rule, rx, Data(n + 1, file[n]));
    AcceptsIntoEmptyRing(rule, rx, Packet(DATA, n + 1, file[n]));
    assert file[..n + 1] == file[..n] + [file[n]];
    FlattenSnoc(file[..n], file[n]);
  }

  lemma {:induction false} AllInOrder(setup: Setup, acts: seq<Action>, n: nat)
    requires SetupOk(setup) && n <= |setup.file| && Exec(setup, acts).rx == InitReceiver(setup.winSize)
    requires n < Exec(setup, acts).server.win.Curr()
    ensures Exec(setup, acts + DeliverAll(setup, n)).server == Exec(setup, acts).server
    ensures Exec(setup, acts + DeliverAll(setup, n)).toRcopy == Exec(setup, acts).toRcopy
    ensures n > 0 ==> RR(setup, n) in Exec(setup, acts + DeliverAll(setup, n)).toServer
    ensures ReceivedInOrder(setup.file, Exec(setup, acts + DeliverAll(setup, n)).rx, n)
    decreases n
  {
    hide Exec;
    if n == 0 {
      assert acts + [] == acts && setup.file[..0] == [];
    } else {
      AllInOrder(setup, acts, n - 1);
      DeliveredInOrder(setup, acts + DeliverAll(setup, n - 1), n - 1);
      assert acts + DeliverAll(setup, n) == acts + DeliverAll(setup, n - 1) + [Deliver(setup, n)];
    }
  }

  lemma WindowFilled(setup: Setup)
    requires SetupOk(setup) && setup.winSize <= |setup.file|
    ensures FullAndPassed(Exec(setup, FillWindow(setup)))
    ensures ReceivedInOrder(setup.file, Exec(setup, FillWindow(setup)).rx, setup.winSize)
    ensures Exec(setup, FillWindow(setup)).server.win.lower == 1
  {
    hide Exec;
    StartSending(setup, setup.winSize);
    ReachableSender(setup, Idle(2 * setup.winSize - 1));
    AllInOrder(setup, Idle(2 * setup.winSize - 1), setup.winSize);
  }

  predicate Quiet(envs: seq<Env>) {
    forall env <- envs :: !env.ready && env.readOk
  }

  /** Deliveries to the receiver are no turns of the server. */
  lemma {:induction false} DeliveriesAreNotTurns(setup: Setup, acts: seq<Action>, n: nat)
    requires setup.winSize > 0 && n <= |setup.file| < TWO_32
    ensures ServerEnvs(setup, acts + DeliverAll(setup, n)) == ServerEnvs(setup, acts)
    decreases n
  {
    hide ServerEnvs, Exec;
    if n == 0 {
      assert acts + [] == acts;
    } else {
      DeliveriesAreNotTurns(setup, acts, n - 1);
      ServerEnvsSnoc(setup, acts + DeliverAll(setup, n - 1), Deliver(setup, n));
      assert acts + DeliverAll(setup, n) == acts + DeliverAll(setup, n - 1) + [Deliver(setup, n)];
    }
  }

  lemma IdleTurnIsTaken(setup: Setup, acts: seq<Action>)
    requires setup.winSize > 0 && Quiet(ServerEnvs(setup, acts))
    ensures ServerEnvs(setup, acts + [IDLE]) == ServerEnvs(setup, acts) + [ServerEnv(setup, IDLE)]
  {
    hide Exec, ServerEnvs, Run;
    ServerEnvsMakeTheServer(setup, acts);
    QuietHearsNothing(setup.file, setup.winSize, ServerEnvs(setup, acts));
    ServerEnvsSnoc(setup, acts, IDLE);
  }

  /** Every idle turn is taken while the server has heard nothing. */
  lemma {:induction false} IdleTurnsAreTaken(setup: Setup, acts: seq<Action>, n: nat)
    requires setup.winSize > 0 && Quiet(ServerEnvs(setup, acts))
    ensures var envs := ServerEnvs(setup, acts + Idle(n));
            Quiet(envs) && |envs| == |ServerEnvs(setup, acts)| + n
    decreases n
  {
    hide ServerEnvs;
    if n == 0 {
      assert acts + Idle(0) == acts;
    } else {
      IdleTurnsAreTaken(setup, acts, n - 1);
      IdleTurnIsTaken(setup, acts + Idle(n - 1));
      assert acts + Idle(n) == acts + Idle(n - 1) + [IDLE];
    }
  }

  lemma NoTurnsYet(setup: Setup)
    requires setup.winSize > 0
    ensures ServerEnvs(setup, []) == []
  {
  }

  /** With a filled window and only idle turns since, the server has heard nothing. */
  lemma FilledQuietly(setup: Setup, turns: nat)
    requires SetupOk(setup) && setup.winSize <= |setup.file|
    ensures var envs := ServerEnvs(setup, FillWindow(setup) + Idle(turns));
            && |envs| >= turns && Quiet(envs)
            && ReceivedIn(setup.file, Start(setup.winSize), envs) == 0
  {
    hide ServerEnvs, Heard, Run;
    NoTurnsYet(setup);
    IdleTurnsAreTaken(setup, [], 2 * setup.winSize - 1);
    assert [] + Idle(2 * setup.winSize - 1) == Idle(2 * setup.winSize - 1);
    DeliveriesAreNotTurns(setup, Idle(2 * setup.winSize - 1), setup.winSize);
    IdleTurnsAreTaken(setup, FillWindow(setup), turns);
    QuietHearsNothing(setup.file, setup.winSize, ServerEnvs(setup, FillWindow(setup) + Idle(turns)));
  }

  /**
   A full window is received, all its RRs are lost, and nothing else happens: the server
   repeats the first chunk exactly MAX_TRIES times and gives up, and the file ends with the
   window, whatever is left of it.
   */
  lemma SilentRun(setup: Setup, turns: nat)
    requires SetupOk(setup) && setup.winSize <= |setup.file| && turns >= TurnBound(|setup.file|, 0)
    ensures FullAndPassed(Exec(setup, FillWindow(setup)))
    ensures var end := Exec(setup, FillWindow(setup) + Idle(turns));
            && end.server.state == State.Done && end.server.win.Curr() == setup.winSize + 1
            && end.rx.ring.out == Flatten(setup.file[..setup.winSize])
            && end.toServer == Exec(setup, FillWindow(setup)).toServer
    ensures var out := Run(setup.file, Start(setup.winSize), ServerEnvs(setup, FillWindow(setup) + Idle(turns))).out;
            && |OfFlag(out, TIMEOUT_DATA)| == MAX_TRIES
            && forall p <- OfFlag(out, TIMEOUT_DATA) :: p == Packet(TIMEOUT_DATA, 1, setup.file[0])
  {
    hide Exec, ServerEnvs, Heard, Run, OfFlag;
    WindowFilled(setup);
    FilledQuietly(setup, turns);
    SilenceEndsInDone(setup, FillWindow(setup), Idle(turns));
    ServerEnvsMakeTheServer(setup, FillWindow(setup) + Idle(turns));
    AllTriesOnTheFirst(setup.file, setup.winSize, ServerEnvs(setup, FillWindow(setup) + Idle(turns)));
  }

  lemma AllTriesOnTheFirst(file: seq<seq<byte>>, winSize: nat, envs: seq<Env>)
    requires FileOk(file, winSize) && file != [] && Quiet(envs) && Heard(file, Start(winSize), envs) == []
    requires var s := Run(file, Start(winSize), envs).next;
             s.state == State.Done && !s.eofSent && s.win.lower == 1
    ensures var out := Run(file, Start(winSize), envs).out;
            && |OfFlag(out, TIMEOUT_DATA)| == MAX_TRIES
            && forall p <- OfFlag(out, TIMEOUT_DATA) :: p == Packet(TIMEOUT_DATA, 1, file[0])
  {
    hide Run, Heard, OfFlag;
    StopsOnlyAfterAllTries(file, winSize, envs);
    EofNumbers(file, winSize, envs);
    TimeoutsRepeatLow(file, winSize, envs);
  }

  // ----- under either rule: what a good network gives

  /** Chunks 1 to `n`: each is sent, delivered and acknowledged at once. */
  function StopAndWait(setup: Setup, n: nat): seq<Action>
    requires n <= |setup.file| < TWO_32
  {
    if n == 0 then []
    else StopAndWait(setup, n - 1) + [IDLE] + [Deliver(setup, n)] + HearRR(setup, n)
  }

  /** The expected chunk is acknowledged with its own number when the ring is empty. */
  lemma AcksInOrder(rule: Rule, file: seq<seq<byte>>, rx: Receiver, n: nat)
    requires n < |file| < TWO_32 - 1 && ReceivedInOrder(file, rx, n)
    ensures RecvStep(rule, rx, Data(n + 1, file[n])).reply == Some(Packet(ACK_RR, n + 1, Be32(n + 1)))
  {
    hide RecvStep, Accept, AllWritten, Flatten, Be32;
    CallKinds(rule, rx, Data(n + 1, file[n]));
    AcceptsIntoEmptyRing(rule, rx, Packet(DATA, n + 1, file[n]));
  }

  lemma DeliveredInOrder(setup: Setup, acts: seq<Action>, n: nat)
    requires SetupOk(setup) && n < |setup.file| && n + 1 < Exec(setup, acts).server.win.Curr()
    requires ReceivedInOrder(setup.file, Exec(setup, acts).rx, n)
    ensures var after := Exec(setup, acts + [Deliver(setup, n + 1)]);
            && after.server == Exec(setup, acts).server && after.toRcopy == Exec(setup, acts).toRcopy
            && ReceivedInOrder(setup.file, after.rx, n + 1)
            && RR(setup, n + 1) in after.toServer
  {
    hide Exec, RecvStep, ReceivedInOrder;
    Delivers(setup, acts, n + 1);
    NextInOrder(setup.rule, setup.file, Exec(setup, acts).rx, n);
    AcksInOrder(setup.rule, setup.file, Exec(setup, acts).rx, n);
  }

  lemma NothingSentYet(setup: Setup)
    requires SetupOk(setup)
    ensures Sending(Exec(setup, []).server, State.SendPacket, 1, 1)
    ensures ReceivedInOrder(setup.file, Exec(setup, []).rx, 0)
  {
    assert setup.file[..0] == [];
  }

  lemma {:induction false} OneByOne(setup: Setup, n: nat)
    requires SetupOk(setup) && n <= |setup.file|
    ensures Sending(Exec(setup, StopAndWait(setup, n)).server, State.SendPacket, n + 1, n + 1)
    ensures ReceivedInOrder(setup.file, Exec(setup, StopAndWait(setup, n)).rx, n)
    decreases n
  {
    hide Exec, ReceivedInOrder;
    if n == 0 {
      NothingSentYet(setup);
    } else {
      var acts := StopAndWait(setup, n - 1);
      OneByOne(setup, n - 1);
      SendNext(setup, acts, n, n);
      DeliveredInOrder(setup, acts + [IDLE], n - 1);
      HearsRR(setup, acts + [IDLE] + [Deliver(setup, n)], n, n + 1, n);
    }
  }

  /** END_OF_FILE goes out, and it and its acknowledgement arrive. */
  function LastExchange(setup: Setup, n: u32): seq<Action> {
    [IDLE] + [RcopyTurn(true, EofWire(setup, n), Intact, 0)]
    + [ServerTurn(true, true, Encode(setup.rcopyHost, Packet(EOF_ACK, n, [0])), Intact)]
  }

  lemma EofFromSending(setup: Setup, acts: seq<Action>)
    requires SetupOk(setup)
    requires Sending(Exec(setup, acts).server, State.SendPacket, |setup.file| + 1, |setup.file| + 1)
    ensures var sys, after := Exec(setup, acts), Exec(setup, acts + [IDLE]);
            && after.server.state == WaitEofAck && after.rx == sys.rx
            && EofWire(setup, |setup.file| + 1) in after.toRcopy
  {
    ReachableSender(setup, acts);
    ExecSnoc(setup, acts, IDLE);
  }

  /** Over a network that delivers everything at once, every file arrives whole and both sides end. */
  lemma PerfectRun(setup: Setup)
    requires SetupOk(setup)
    ensures var end := Exec(setup, StopAndWait(setup, |setup.file|) + LastExchange(setup, |setup.file| + 1));
            && end.server.state == State.Done && end.rx.done && end.rx.ring.out == Flatten(setup.file)
  {
    hide Exec, Flatten, Encode, StopAndWait;
    var n := |setup.file|;
    var acts := StopAndWait(setup, n);
    OneByOne(setup, n);
    EofFromSending(setup, acts);
    EofAckEndsBothSides(setup, acts + [IDLE], n + 1, 0);
    var eof := RcopyTurn(true, EofWire(setup, n + 1), Intact, 0);
    var ack := ServerTurn(true, true, Encode(setup.rcopyHost, Packet(EOF_ACK, n + 1, [0])), Intact);
    assert acts + [IDLE] + [eof] + [ack] == acts + LastExchange(setup, n + 1);
    assert setup.file[..n] == setup.file;
  }

  // ----- under either rule: feedback that arrives after the end of file

  /** The server waits for the EOF_ACK, with the window [lower, curr). */
  predicate Waiting(s: Session, state: State, lower: nat, curr: nat) {
    s.state == state && s.eofSent && s.win.lower == lower && s.win.Curr() == curr
  }

  lemma EofOut(setup: Setup, acts: seq<Action>, lower: nat, curr: u32)
    requires SetupOk(setup) && Sending(Exec(setup, acts).server, Waiter, lower, curr)
    requires curr == |setup.file| + 1 < lower + setup.winSize
    ensures var sys, after := Exec(setup, acts), Exec(setup, acts + [IDLE] + [IDLE]);
            && Waiting(after.server, WaitEofAck, lower, curr) && after.rx == sys.rx
            && EofWire(setup, curr) in after.toRcopy
  {
    ReachableSender(setup, acts);
    ExecSnoc(setup, acts, IDLE);
    ExecSnoc(setup, acts + [IDLE], IDLE);
  }

  lemma ReadsLateRR(setup: Setup, s: Session, lower: nat, curr: nat, n: u32)
    requires Waiting(s, WaitEofAck, lower, curr) && lower <= n + 1 <= curr < TWO_32
    ensures var a := ServerTurn(true, true, RR(setup, n), Intact);
            Waiting(Next(setup.file, s, ServerEnv(setup, a)).next, State.SendPacket, n + 1, curr)
            && Next(setup.file, s, ServerEnv(setup, a)).out == []
  {
    hide Encode, Decode, Be32, Add32;
    AddWraps(n, 1);
    DeliveredIsPacketOrCrcError(setup.rcopyHost, setup.serverHost, Packet(ACK_RR, n, Be32(n)), Intact);
  }

  /** A late RR still slides the window, and after one more turn the server waits again. */
  lemma LateRR(setup: Setup, acts: seq<Action>, lower: nat, curr: nat, n: u32)
    requires SetupOk(setup) && Waiting(Exec(setup, acts).server, WaitEofAck, lower, curr)
    requires RR(setup, n) in Exec(setup, acts).toServer && lower <= n + 1 <= curr < TWO_32
    ensures var sys := Exec(setup, acts);
            var after := Exec(setup, acts + [ServerTurn(true, true, RR(setup, n), Intact)] + [IDLE]);
            && Waiting(after.server, WaitEofAck, n + 1, curr)
            && after.rx == sys.rx && after.toRcopy == sys.toRcopy
  {
    hide Exec, Encode, Decode, Be32;
    var late := ServerTurn(true, true, RR(setup, n), Intact);
    ReadsLateRR(setup, Exec(setup, acts).server, lower, curr, n);
    ExecSnoc(setup, acts, late);
    ExecSnoc(setup, acts + [late], IDLE);
  }

  /** The whole file and its end are sent before anything is delivered; then everything is. */
  function Burst(setup: Setup): seq<Action>
    requires 1 <= |setup.file| < TWO_32 - 1
  {
    SendAll(|setup.file|) + DeliverAll(setup, |setup.file|)
    + [ServerTurn(true, true, RR(setup, |setup.file|), Intact)] + [IDLE]
  }

  lemma BurstSent(setup: Setup, n: nat)
    requires SetupOk(setup) && 1 <= n == |setup.file| < setup.winSize
    ensures var sys := Exec(setup, SendAll(n));
            && Waiting(sys.server, WaitEofAck, 1, n + 1) && sys.rx == InitReceiver(setup.winSize)
            && EofWire(setup, n + 1) in sys.toRcopy
  {
    hide Exec;
    StartSending(setup, n);
    EofOut(setup, Idle(2 * n - 1), 1, n + 1);
  }

  lemma BurstDelivered(setup: Setup, n: nat)
    requires SetupOk(setup) && 1 <= n == |setup.file| < setup.winSize
    ensures var sys := Exec(setup, Burst(setup));
            && Waiting(sys.server, WaitEofAck, n + 1, n + 1) && ReceivedInOrder(setup.file, sys.rx, n)
            && EofWire(setup, n + 1) in sys.toRcopy
  {
    hide Exec, ReceivedInOrder;
    BurstSent(setup, n);
    AllInOrder(setup, SendAll(n), n);
    LateRR(setup, SendAll(n) + DeliverAll(setup, n), 1, n + 1, n);
  }

  /** A file shorter than the window needs one RR only, and that may arrive after the end of file. */
  lemma BurstRun(setup: Setup, n: nat)
    requires SetupOk(setup) && 1 <= n == |setup.file| < setup.winSize
    ensures var eof := RcopyTurn(true, EofWire(setup, n + 1), Intact, 0);
            var ack := ServerTurn(true, true, Encode(setup.rcopyHost, Packet(EOF_ACK, n + 1, [0])), Intact);
            var end := Exec(setup, Burst(setup) + [eof] + [ack]);
            && end.server.state == State.Done && end.server.win.lower == n + 1
            && end.rx.done && end.rx.ring.out == Flatten(setup.file)
  {
    hide Exec, Flatten;
    BurstDelivered(setup, n);
    EofAckEndsBothSides(setup, Burst(setup), n + 1, 0);
    assert setup.file[..n] == setup.file;
  }

  // ----- a lost chunk is asked for and sent again

  function SREJFor(setup: Setup, n: u32): seq<byte> {
    Encode(setup.rcopyHost, Packet(SREJ, n, Be32(n)))
  }

  function Again(setup: Setup, n: u32): seq<byte>
    requires 1 <= n <= |setup.file|
  {
    Encode(setup.serverHost, Packet(SREJ_DATA, n, setup.file[n - 1]))
  }

  /** Feedback is noticed, and turns out to be the SREJ for `n`. */
  function HearSREJ(setup: Setup, n: u32): seq<Action> {
    [ServerTurn(true, true, [], Intact)] + [ServerTurn(true, true, SREJFor(setup, n), Intact)]
  }

  lemma ReadsSREJ(setup: Setup, s: Session, lower: nat, curr: nat, n: u32)
    requires SetupOk(setup) && Inv(setup.file, setup.winSize, s)
    requires Sending(s, HandleFeedback, lower, curr) && lower <= n < curr
    ensures var a := ServerTurn(true, true, SREJFor(setup, n), Intact);
            && n <= |setup.file|
            && Sending(Next(setup.file, s, ServerEnv(setup, a)).next, State.SendPacket, lower, curr)
            && Next(setup.file, s, ServerEnv(setup, a)).out == [Packet(SREJ_DATA, n, setup.file[n - 1])]
  {
    hide Encode, Decode, Be32;
    DeliveredIsPacketOrCrcError(setup.rcopyHost, setup.serverHost, Packet(SREJ, n, Be32(n)), Intact);
  }

  /** The waiting server resends the chunk and returns to sending. */
  lemma HearsSREJ(setup: Setup, acts: seq<Action>, lower: nat, curr: nat, n: u32)
    requires SetupOk(setup) && Sending(Exec(setup, acts).server, Waiter, lower, curr)
    requires SREJFor(setup, n) in Exec(setup, acts).toServer && 1 <= lower <= n < curr && n <= |setup.file|
    ensures var sys, after := Exec(setup, acts), Exec(setup, acts + HearSREJ(setup, n));
            && Sending(after.server, State.SendPacket, lower, curr)
            && after.rx == sys.rx && after.toServer == sys.toServer && Again(setup, n) in after.toRcopy
  {
    hide Encode, Decode, Be32;
    var notice := ServerTurn(true, true, [], Intact);
    var read := ServerTurn(true, true, SREJFor(setup, n), Intact);
    ReachableSender(setup, acts + [notice]);
    ExecSnoc(setup, acts, notice);
    ReadsSREJ(setup, Exec(setup, acts + [notice]).server, lower, curr, n);
    ExecSnoc(setup, acts + [notice], read);
    assert acts + HearSREJ(setup, n) == acts + [notice] + [read];
  }

  /** Chunks 1 and 2 are sent, and 2 arrives; 1 is asked for, sent again, and arrives. */
  function RepairActs(setup: Setup): seq<Action>
    requires |setup.file| >= 2
  {
    Idle(3) + [Deliver(setup, 2)] + HearSREJ(setup, 1) + [RcopyTurn(true, Again(setup, 1), Intact, 0)]
  }

  lemma SecondIsAhead(rule: Rule, b: seq<byte>)
    requires b != []
    ensures RecvStep(rule, InitReceiver(2), Data(2, b)).reply == Some(Packet(SREJ, 1, Be32(1)))
    ensures RecvStep(rule, InitReceiver(2), Data(2, b)).next == Receive(rule, 2, [Data(2, b)]).0
    ensures var rx := Receive(rule, 2, [Data(2, b)]).0;
            rx.expectedSeqNum == 1 && !rx.done
  {
    hide Be32, Receive, RecvStep, Store;
    NothingReceivedYet(rule, 2);
    ReceiveSnoc(rule, 2, [], Data(2, b));
    assert [] + [Data(2, b)] == [Data(2, b)];
    SecondArrives(rule, b, 0);
    CallKinds(rule, InitReceiver(2), Data(2, b));
  }

  lemma AskedFor(setup: Setup)
    requires SetupOk(setup) && setup.winSize == 2 && |setup.file| >= 2
    ensures var sys := Exec(setup, Idle(3) + [Deliver(setup, 2)]);
            && Sending(sys.server, Waiter, 1, 3) && SREJFor(setup, 1) in sys.toServer
            && sys.rx == Receive(setup.rule, 2, [Data(2, setup.file[1])]).0
            && sys.rx.expectedSeqNum == 1 && !sys.rx.done
  {
    hide Exec, Receive, RecvStep, Encode, Be32;
    StartSending(setup, 2);
    Delivers(setup, Idle(3), 2);
    SecondIsAhead(setup.rule, setup.file[1]);
  }

  lemma SentAgain(setup: Setup)
    requires SetupOk(setup) && setup.winSize == 2 && |setup.file| >= 2
    ensures var sys := Exec(setup, Idle(3) + [Deliver(setup, 2)] + HearSREJ(setup, 1));
            && Sending(sys.server, State.SendPacket, 1, 3) && Again(setup, 1) in sys.toRcopy
            && sys.rx == Receive(setup.rule, 2, [Data(2, setup.file[1])]).0 && !sys.rx.done
  {
    hide Exec, Receive;
    AskedFor(setup);
    HearsSREJ(setup, Idle(3) + [Deliver(setup, 2)], 1, 3, 1);
  }

  /**
   A lost chunk is asked for by an SREJ, resent and accepted: under the documented rule
   both chunks are then written, as written only the second is. Either way the receiver
   expects 3.
   */
  lemma RepairRun(setup: Setup)
    requires SetupOk(setup) && setup.winSize == 2 && |setup.file| >= 2
    ensures var end := Exec(setup, RepairActs(setup));
            && Sending(end.server, State.SendPacket, 1, 3) && end.rx.expectedSeqNum == 3
            && end.rx.ring.out == (if setup.rule.Documented? then setup.file[0] else []) + setup.file[1]
  {
    hide Exec, Receive, RecvStep, Encode;
    var file := setup.file;
    var acts := Idle(3) + [Deliver(setup, 2)] + HearSREJ(setup, 1);
    var again := RcopyTurn(true, Again(setup, 1), Intact, 0);
    var first := Event(true, Got(Packet(SREJ_DATA, 1, file[0])), 0);
    SentAgain(setup);
    DeliveredIsPacketOrCrcError(setup.serverHost, setup.rcopyHost, Packet(SREJ_DATA, 1, file[0]), Intact);
    ExecSnoc(setup, acts, again);
    ReceiveSnoc(setup.rule, 2, [Data(2, file[1])], first);
    assert [Data(2, file[1])] + [first] == [Data(2, file[1]), first];
    RulesDiverge(file[0], file[1], 0);
    assert [] + file[1] == file[1];
    assert setup.rule == if setup.rule.Documented? then Documented else AsWritten;
  }
}
