/**
 The whole file transfer: the server, the receiver under either rule, and two networks of
 wire bytes between them. A network remembers every packet ever sent and may
 deliver any of them at any time, again and again, intact or with one byte complemented;
 a packet it never delivers is lost.
 */
module Transfer {
  import opened Bytes
  import opened Checksum
  import opened Srej
  import opened Channel
  import opened Server
  import opened Buffer
  import opened Rcopy

  datatype Setup = Setup(
    file: seq<seq<byte>>, winSize: u32, serverHost: Host, rcopyHost: Host, rule: Rule)

  datatype System = System(
    server: Session, rx: Receiver, toRcopy: set<seq<byte>>, toServer: set<seq<byte>>)

  datatype Fault = Intact | FlipAt(i: nat)

  /** The next thing to happen: one turn of either side, with the bytes delivered to it. */
  datatype Action =
    | ServerTurn(ready: bool, readOk: bool, wire: seq<byte>, fault: Fault)
    | RcopyTurn(ready: bool, wire: seq<byte>, fault: Fault, junk: byte)

  function Delivered(host: Host, wire: seq<byte>, fault: Fault): Received {
    if |wire| < HEADER_LEN then CrcError
    else match fault
      case Intact => Decode(host, wire)
      case FlipAt(i) => if i < |wire| then Decode(host, Flip(wire, i)) else Decode(host, wire)
  }

  function Wires(host: Host, packets: seq<Packet>): set<seq<byte>> {
    set p <- packets :: Encode(host, p)
  }

  function InitSystem(setup: Setup): System
    requires setup.winSize > 0
  {
    System(Start(setup.winSize), InitReceiver(setup.winSize), {}, {})
  }

  function ServerEnv(setup: Setup, a: Action): Env
    requires a.ServerTurn?
  {
    Env(a.ready, a.readOk, Delivered(setup.serverHost, a.wire, a.fault))
  }

  function RcopyEvent(setup: Setup, a: Action): Event
    requires a.RcopyTurn?
  {
    Event(a.ready, if a.ready then Delivered(setup.rcopyHost, a.wire, a.fault) else CrcError, a.junk)
  }

  /** Only packets that were sent can be delivered. */
  predicate Enabled(setup: Setup, sys: System, a: Action) {
    match a
    case ServerTurn(_, _, wire, _) => Receives(sys.server, ServerEnv(setup, a)) ==> wire in sys.toServer
    case RcopyTurn(ready, wire, _, _) => ready ==> wire in sys.toRcopy
  }

  function Act(setup: Setup, sys: System, a: Action): System
    requires sys.rx.ring.Shaped()
  {
    if !Enabled(setup, sys, a) then sys
    else match a
      case ServerTurn(_, _, _, _) =>
        var step := Next(setup.file, sys.server, ServerEnv(setup, a));
        sys.(server := step.next, toRcopy := sys.toRcopy + Wires(setup.serverHost, step.out))
      case RcopyTurn(_, _, _, _) =>
        var Reaction(next, reply) := RecvStep(setup.rule, sys.rx, RcopyEvent(setup, a));
        sys.(rx := next, toServer := sys.toServer +
             Wires(setup.rcopyHost, if reply.Some? then [reply.value] else []))
  }

  /** The state after any sequence of actions; those that are not enabled change nothing. */
  function Exec(setup: Setup, acts: seq<Action>): (sys: System)
    requires setup.winSize > 0
    ensures sys.rx.ring.Shaped() && sys.rx.ring.winSize == setup.winSize
  {
    if acts == [] then InitSystem(setup)
    else
      var before := Exec(setup, acts[..|acts| - 1]);
      var last := acts[|acts| - 1];
      if last.RcopyTurn? then
        ReceiverStaysShaped(setup.rule, before.rx, RcopyEvent(setup, last));
        Act(setup, before, last)
      else Act(setup, before, last)
  }

  // ----- the system invariant

  ghost predicate SetupOk(setup: Setup) {
    FileOk(setup.file, setup.winSize)
  }

  /** A wire that carries a genuine packet, numbered below `curr` unless it ends the file. */
  ghost predicate DataWire(setup: Setup, curr: nat, w: seq<byte>) {
    exists p :: w == Encode(setup.serverHost, p) && Genuine(setup.file, p)
             && (p.flag != END_OF_FILE ==> p.seqNum < curr)
  }

  /**
   An RR acknowledges only what the receiver has passed; the end of file is acknowledged
   once the receiver has finished, with the number it still expects.
   */
  predicate Honest(rx: Receiver, p: Packet) {
    && (p.flag == ACK_RR ==> p.seqNum + 1 <= rx.expectedSeqNum)
    && (p.flag == EOF_ACK ==> rx.done && p.seqNum == rx.expectedSeqNum)
  }

  /** A wire that carries honest feedback. */
  ghost predicate FeedbackWire(setup: Setup, rx: Receiver, w: seq<byte>) {
    exists p :: w == Encode(setup.rcopyHost, p) && Honest(rx, p)
  }

  /** What the sending side keeps whatever the receiver does. */
  ghost predicate SenderInv(setup: Setup, sys: System) {
    && SetupOk(setup)
    && Inv(setup.file, setup.winSize, sys.server)
    && sys.rx.ring.Shaped() && sys.rx.ring.winSize == setup.winSize
    && (forall w <- sys.toRcopy :: DataWire(setup, sys.server.win.Curr(), w))
  }

  /** The server has slid past nothing that the receiver has not passed, and no feedback will make it. */
  ghost predicate LinkInv(setup: Setup, sys: System) {
    && SenderInv(setup, sys)
    && sys.server.win.lower <= sys.rx.expectedSeqNum
    && (forall w <- sys.toServer :: FeedbackWire(setup, sys.rx, w))
  }

  /** What both sides keep under the documented rule. */
  ghost predicate SysInv(setup: Setup, sys: System) {
    && setup.rule.Documented? && LinkInv(setup, sys)
    && InvDocumented(setup.file, sys.server.win.Curr(), sys.rx)
  }

  lemma DeliveredIsPacketOrCrcError(sender: Host, receiver: Host, p: Packet, fault: Fault)
    ensures var got := Delivered(receiver, Encode(sender, p), fault);
            got == CrcError || got == Got(p)
    ensures fault.Intact? ==> Delivered(receiver, Encode(sender, p), fault) == Got(p)
  {
    var w := Encode(sender, p);
    HeaderRoundTrip(sender, receiver, p);
    if fault.FlipAt? && fault.i < |w| {
      ArrivalIsPacketOrCrcError(sender, receiver, p, Flip(w, fault.i));
    }
  }

  /** Whatever the channel's events make of a packet is one of these deliveries. */
  lemma ChannelIsCovered(host: Host, wire: seq<byte>, arrived: seq<byte>) returns (fault: Fault)
    requires |wire| >= HEADER_LEN && Arrival(wire, arrived)
    ensures Delivered(host, wire, fault) == Decode(host, arrived)
  {
    if arrived == wire {
      fault := Intact;
    } else {
      var i: nat :| i < |wire| && arrived == Flip(wire, i);
      fault := FlipAt(i);
    }
  }

  /** The window slides only to one past an acknowledged number. */
  lemma LowerFollowsRR(file: seq<seq<byte>>, s: Session, env: Env)
    ensures var lower := Next(file, s, env).next.win.lower;
            || lower == s.win.lower
            || (Receives(s, env) && env.recv.Got? && env.recv.packet.flag == ACK_RR
                && lower == Add32(env.recv.packet.seqNum, 1))
  {
  }

  lemma HoldsBelowHigherTop(file: seq<seq<byte>>, rx: Receiver, top: nat, higher: nat)
    requires InvDocumented(file, top, rx) && top <= higher <= |file| + 1
    ensures InvDocumented(file, higher, rx)
  {
  }

  lemma DataWiresGrow(setup: Setup, sys: System, curr: nat, out: seq<Packet>)
    requires SenderInv(setup, sys) && sys.server.win.Curr() <= curr
    requires forall p <- out :: Genuine(setup.file, p) && (p.flag != END_OF_FILE ==> p.seqNum < curr)
    ensures forall w <- sys.toRcopy + Wires(setup.serverHost, out) :: DataWire(setup, curr, w)
  {
    forall w <- sys.toRcopy + Wires(setup.serverHost, out)
      ensures DataWire(setup, curr, w)
    {
      if w in sys.toRcopy {
        var p :| w == Encode(setup.serverHost, p) && Genuine(setup.file, p)
              && (p.flag != END_OF_FILE ==> p.seqNum < sys.server.win.Curr());
        assert p.flag != END_OF_FILE ==> p.seqNum < curr;
      } else {
        var p :| p in out && w == Encode(setup.serverHost, p);
      }
    }
  }

  lemma ServerTurnKeepsSender(setup: Setup, sys: System, a: Action)
    requires SenderInv(setup, sys) && a.ServerTurn? && Enabled(setup, sys, a)
    ensures SenderInv(setup, Act(setup, sys, a))
  {
    var step := Next(setup.file, sys.server, ServerEnv(setup, a));
    StepKeepsInv(setup.file, setup.winSize, sys.server, ServerEnv(setup, a));
    DataWiresGrow(setup, sys, step.next.win.Curr(), step.out);
  }

  lemma FeedbackIsHonest(setup: Setup, sys: System, a: Action)
    requires LinkInv(setup, sys) && a.ServerTurn? && a.wire in sys.toServer
    ensures var got := Delivered(setup.serverHost, a.wire, a.fault);
            got == CrcError || Honest(sys.rx, got.packet)
  {
    hide Encode, Decode, DataWire, Inv;
    var p :| a.wire == Encode(setup.rcopyHost, p) && Honest(sys.rx, p);
    DeliveredIsPacketOrCrcError(setup.rcopyHost, setup.serverHost, p, a.fault);
  }

  lemma LowerStaysBelowExpected(setup: Setup, sys: System, a: Action)
    requires LinkInv(setup, sys) && a.ServerTurn? && Enabled(setup, sys, a)
    ensures Next(setup.file, sys.server, ServerEnv(setup, a)).next.win.lower <= sys.rx.expectedSeqNum
  {
    hide Next, Encode, Decode, Add32;
    LowerFollowsRR(setup.file, sys.server, ServerEnv(setup, a));
    if Receives(sys.server, ServerEnv(setup, a)) {
      FeedbackIsHonest(setup, sys, a);
      var got := ServerEnv(setup, a).recv;
      if got.Got? {
        AddWraps(got.packet.seqNum, 1);
      }
    }
  }

  lemma ServerTurnKeepsLink(setup: Setup, sys: System, a: Action)
    requires LinkInv(setup, sys) && a.ServerTurn? && Enabled(setup, sys, a)
    ensures LinkInv(setup, Act(setup, sys, a)) && Act(setup, sys, a).rx == sys.rx
    ensures sys.server.win.Curr() <= Act(setup, sys, a).server.win.Curr()
  {
    ServerTurnKeepsSender(setup, sys, a);
    StepKeepsInv(setup.file, setup.winSize, sys.server, ServerEnv(setup, a));
    LowerStaysBelowExpected(setup, sys, a);
  }

  lemma ServerTurnKeepsInv(setup: Setup, sys: System, a: Action)
    requires SysInv(setup, sys) && a.ServerTurn? && Enabled(setup, sys, a)
    ensures SysInv(setup, Act(setup, sys, a))
  {
    ServerTurnKeepsLink(setup, sys, a);
    HoldsBelowHigherTop(setup.file, sys.rx, sys.server.win.Curr(), Act(setup, sys, a).server.win.Curr());
  }

  lemma GenuineArrival(file: seq<seq<byte>>, p: Packet, e: Event)
    requires Genuine(file, p) && (e.recv == CrcError || e.recv == Got(p))
    ensures GenuineEvent(file, e)
  {
  }

  /** Whatever reaches the receiver, under either rule, is a chunk the server has sent. */
  lemma ArrivalsAreGenuine(setup: Setup, sys: System, a: Action)
    requires SenderInv(setup, sys) && a.RcopyTurn? && Enabled(setup, sys, a)
    ensures var e := RcopyEvent(setup, a);
            && GenuineEvent(setup.file, e)
            && (e.recv.Got? && IsData(e.recv.packet.flag) ==> e.recv.packet.seqNum < sys.server.win.Curr())
  {
    if a.ready {
      var p :| a.wire == Encode(setup.serverHost, p) && Genuine(setup.file, p)
            && (p.flag != END_OF_FILE ==> p.seqNum < sys.server.win.Curr());
      DeliveredIsPacketOrCrcError(setup.serverHost, setup.rcopyHost, p, a.fault);
      GenuineArrival(setup.file, p, RcopyEvent(setup, a));
    }
  }

  /** Under the documented rule it also fits the receiver's ring. */
  lemma ArrivalsFit(setup: Setup, sys: System, a: Action)
    requires SysInv(setup, sys) && a.RcopyTurn? && Enabled(setup, sys, a)
    ensures FittingEvent(setup.file, sys.server.win.Curr(), sys.rx, RcopyEvent(setup, a))
  {
    ArrivalsAreGenuine(setup, sys, a);
  }

  lemma ReceiverStepKeepsInv(setup: Setup, sys: System, a: Action)
    requires SysInv(setup, sys) && a.RcopyTurn? && Enabled(setup, sys, a)
    ensures var Reaction(rx, reply) := RecvStep(Documented, sys.rx, RcopyEvent(setup, a));
            && InvDocumented(setup.file, sys.server.win.Curr(), rx)
            && rx.ring.winSize == setup.winSize && rx.expectedSeqNum >= sys.rx.expectedSeqNum
            && (reply.Some? && reply.value.flag == ACK_RR ==> reply.value.seqNum + 1 == rx.expectedSeqNum)
            && (sys.rx.done ==> rx == sys.rx) && (reply.Some? ==> Honest(rx, reply.value))
  {
    ArrivalsFit(setup, sys, a);
    DocumentedStep(setup.file, sys.server.win.Curr(), sys.rx, RcopyEvent(setup, a));
    EofIsAcknowledgedOnce(Documented, sys.rx, RcopyEvent(setup, a));
  }

  /** Under either rule a receiver that has finished stays as it is, and its last reply says so. */
  lemma EofIsAcknowledgedOnce(rule: Rule, rx: Receiver, e: Event)
    requires rx.ring.Shaped()
    ensures var Reaction(next, reply) := RecvStep(rule, rx, e);
            && (rx.done ==> next == rx && reply == None)
            && (reply.Some? && reply.value.flag == EOF_ACK ==>
                  next.done && reply.value.seqNum == next.expectedSeqNum)
  {
  }

  lemma FeedbackWiresGrow(setup: Setup, sys: System, rx: Receiver, reply: Option<Packet>)
    requires LinkInv(setup, sys) && sys.rx.expectedSeqNum <= rx.expectedSeqNum
    requires (sys.rx.done ==> rx == sys.rx) && (reply.Some? ==> Honest(rx, reply.value))
    ensures forall w <- sys.toServer + Wires(setup.rcopyHost, if reply.Some? then [reply.value] else []) ::
              FeedbackWire(setup, rx, w)
  {
    forall w <- sys.toServer + Wires(setup.rcopyHost, if reply.Some? then [reply.value] else [])
      ensures FeedbackWire(setup, rx, w)
    {
      if w in sys.toServer {
        var p :| w == Encode(setup.rcopyHost, p) && Honest(sys.rx, p);
        assert Honest(rx, p);
      } else {
        assert w == Encode(setup.rcopyHost, reply.value);
      }
    }
  }

  lemma RcopyTurnKeepsInv(setup: Setup, sys: System, a: Action)
    requires SysInv(setup, sys) && a.RcopyTurn? && Enabled(setup, sys, a)
    ensures SysInv(setup, Act(setup, sys, a))
  {
    var Reaction(rx, reply) := RecvStep(Documented, sys.rx, RcopyEvent(setup, a));
    ReceiverStepKeepsInv(setup, sys, a);
    FeedbackWiresGrow(setup, sys, rx, reply);
  }

  /** The sending side of every reachable state, under either rule. */
  lemma {:induction false} ReachableSender(setup: Setup, acts: seq<Action>)
    requires SetupOk(setup)
    ensures SenderInv(setup, Exec(setup, acts))
    decreases |acts|
  {
    if acts != [] {
      var init, a := acts[..|acts| - 1], acts[|acts| - 1];
      ReachableSender(setup, init);
      var before := Exec(setup, init);
      if a.ServerTurn? && Enabled(setup, before, a) {
        ServerTurnKeepsSender(setup, before, a);
      }
    }
  }

  lemma {:induction false} ReachableInv(setup: Setup, acts: seq<Action>)
    requires SetupOk(setup) && setup.rule.Documented?
    ensures SysInv(setup, Exec(setup, acts))
    decreases |acts|
  {
    if acts == [] {
      CountBound(InitRing(setup.winSize).cells);
      assert setup.file[..0] == [];
    } else {
      var init, a := acts[..|acts| - 1], acts[|acts| - 1];
      ReachableInv(setup, init);
      var before := Exec(setup, init);
      if Enabled(setup, before, a) {
        if a.ServerTurn? {
          ServerTurnKeepsInv(setup, before, a);
        } else {
          RcopyTurnKeepsInv(setup, before, a);
        }
      }
    }
  }

  // ----- the theorems (documented receiver)

  lemma LeadingChunks(file: seq<seq<byte>>, m: nat, n: nat)
    requires m <= n <= |file|
    ensures Flatten(file[..m]) <= Flatten(file[..n]) <= Flatten(file)
  {
    FlattenPrefix(file, n);
    FlattenPrefix(file[..n], m);
    assert file[..n][..m] == file[..m];
  }

  /** The output is the chunks below the expected number, and includes all the server has slid past. */
  ghost predicate Safe(setup: Setup, sys: System) {
    var file, n, lower := setup.file, sys.rx.expectedSeqNum, sys.server.win.lower;
    && 1 <= lower <= n <= |file| + 1
    && sys.rx.ring.out == Flatten(file[..n - 1]) <= Flatten(file)
    && Flatten(file[..lower - 1]) <= sys.rx.ring.out
  }

  lemma InvIsSafe(setup: Setup, sys: System)
    requires SysInv(setup, sys)
    ensures Safe(setup, sys)
  {
    LeadingChunks(setup.file, sys.server.win.lower - 1, sys.rx.expectedSeqNum - 1);
  }

  /** Safety: in every reachable state the output is a prefix of the file, as far as it should be. */
  lemma DeliversPrefix(setup: Setup, acts: seq<Action>)
    requires SetupOk(setup) && setup.rule.Documented?
    ensures Safe(setup, Exec(setup, acts))
  {
    ReachableInv(setup, acts);
    InvIsSafe(setup, Exec(setup, acts));
  }

  lemma OnlyAllChunksMakeTheFile(file: seq<seq<byte>>, n: nat)
    requires n <= |file| && forall k :: 0 <= k < |file| ==> file[k] != []
    ensures Flatten(file[..n]) == Flatten(file) <==> n == |file|
  {
    hide Flatten;
    assert file[..|file|] == file;
    if n < |file| {
      LeadingChunks(file, n, n + 1);
      assert file[..n + 1] == file[..n] + [file[n]];
      FlattenSnoc(file[..n], file[n]);
      assert |Flatten(file[..n])| < |Flatten(file[..n + 1])| <= |Flatten(file)|;
    }
  }

  /** An end-of-file handled one past the last chunk leaves the whole file, byte for byte. */
  lemma WholeFileAtEof(setup: Setup, acts: seq<Action>)
    requires SetupOk(setup) && setup.rule.Documented?
    ensures var rx := Exec(setup, acts).rx;
            rx.ring.out == Flatten(setup.file) <==> rx.expectedSeqNum == |setup.file| + 1
  {
    ReachableInv(setup, acts);
    OnlyAllChunksMakeTheFile(setup.file, Exec(setup, acts).rx.expectedSeqNum - 1);
  }

  /**
   Nesting: the expected number lies in the sender's window, so the two windows overlap
   as they should, and the receiver's buffer is open.
   */
  lemma WindowsNested(setup: Setup, acts: seq<Action>)
    requires SetupOk(setup) && setup.rule.Documented?
    ensures var sys := Exec(setup, acts);
            && sys.server.win.lower <= sys.rx.expectedSeqNum <= sys.server.win.Curr()
            && sys.server.win.Curr() <= sys.server.win.lower + setup.winSize
            && sys.rx.ring.Open()
  {
    ReachableInv(setup, acts);
    var sys := Exec(setup, acts);
    BufferAlwaysOpen(setup.file, sys.server.win.Curr(), sys.rx);
  }

  /**
   The packet is within a lap of the expected number; its slot is free or already holds
   just its chunk; afterwards it holds it, and no other slot has changed.
   */
  ghost predicate TakesItsOwnSlot(rx: Receiver, p: Packet, next: Receiver) {
    && rx.ring.Shaped() && next.ring.Shaped() && next.ring.winSize == rx.ring.winSize
    && rx.expectedSeqNum < p.seqNum < rx.expectedSeqNum + rx.ring.winSize
    && (At(rx.ring.cells, p.seqNum).written || At(rx.ring.cells, p.seqNum).data == p.payload)
    && !next.done && At(next.ring.cells, p.seqNum) == Cell(p.payload, false)
    && forall s: nat :: rx.expectedSeqNum <= s < rx.expectedSeqNum + rx.ring.winSize && s != p.seqNum ==>
         At(next.ring.cells, s) == At(rx.ring.cells, s)
  }

  lemma FittingTakesItsOwnSlot(file: seq<seq<byte>>, top: nat, rx: Receiver, e: Event)
    requires InvDocumented(file, top, rx) && FittingEvent(file, top, rx, e) && HandsAhead(rx, e)
    requires forall k :: 0 <= k < |file| ==> file[k] != []
    ensures TakesItsOwnSlot(rx, e.recv.packet, RecvStep(Documented, rx, e).next)
  {
    AheadIsBuffered(file, top, rx, e.recv.packet);
    AheadTouchesOneSlot(file, top, rx, e.recv.packet);
  }

  lemma AheadTakesItsOwnSlot(setup: Setup, sys: System, a: Action)
    requires SysInv(setup, sys) && a.RcopyTurn? && Enabled(setup, sys, a)
    requires HandsAhead(sys.rx, RcopyEvent(setup, a))
    ensures var e := RcopyEvent(setup, a);
            TakesItsOwnSlot(sys.rx, e.recv.packet, RecvStep(Documented, sys.rx, e).next)
  {
    ArrivalsFit(setup, sys, a);
    FittingTakesItsOwnSlot(setup.file, sys.server.win.Curr(), sys.rx, RcopyEvent(setup, a));
  }

  /**
   No residue collides: a packet ahead of the expected number is never rejected and never
   overwrites another, whichever of the packets ever sent it is.
   */
  lemma NoCollisions(setup: Setup, acts: seq<Action>, a: Action)
    requires SetupOk(setup) && setup.rule.Documented? && a.RcopyTurn?
    requires Enabled(setup, Exec(setup, acts), a) && HandsAhead(Exec(setup, acts).rx, RcopyEvent(setup, a))
    ensures var rx, e := Exec(setup, acts).rx, RcopyEvent(setup, a);
            TakesItsOwnSlot(rx, e.recv.packet, RecvStep(Documented, rx, e).next)
  {
    ReachableInv(setup, acts);
    AheadTakesItsOwnSlot(setup, Exec(setup, acts), a);
  }

  /** An intact copy of the expected chunk always moves the transfer forward. */
  lemma ExpectedChunkAdvances(setup: Setup, acts: seq<Action>, p: Packet, junk: byte)
    requires SetupOk(setup) && setup.rule.Documented?
    requires var sys := Exec(setup, acts);
             && Encode(setup.serverHost, p) in sys.toRcopy && IsData(p.flag)
             && p.seqNum == sys.rx.expectedSeqNum && !sys.rx.done
    ensures Exec(setup, acts + [RcopyTurn(true, Encode(setup.serverHost, p), Intact, junk)]).rx.expectedSeqNum
          > Exec(setup, acts).rx.expectedSeqNum
  {
    ReachableInv(setup, acts);
    var sys := Exec(setup, acts);
    var a := RcopyTurn(true, Encode(setup.serverHost, p), Intact, junk);
    DeliveredIsPacketOrCrcError(setup.serverHost, setup.rcopyHost, p, Intact);
    ArrivalsFit(setup, sys, a);
    DocumentedKeepsInv(setup.file, sys.server.win.Curr(), sys.rx, RcopyEvent(setup, a));
    assert (acts + [a])[..|acts|] == acts;
  }

  /** A server that reads this reply resends the missing chunk, or slides to the expected number. */
  ghost predicate Serves(setup: Setup, server: Session, rx: Receiver, reply: Packet) {
    var Step(next, out) := Next(setup.file, server, Env(true, true, Got(reply)));
    var n := reply.seqNum;
    && (reply.flag == SREJ ==> 1 <= n <= |setup.file| && out == [Packet(SREJ_DATA, n, setup.file[n - 1])])
    && (reply.flag == ACK_RR ==> out == [] && next.win.lower == rx.expectedSeqNum)
  }

  predicate ReadsFeedback(server: Session) {
    server.state == HandleFeedback || server.state == WaitEofAck
  }

  lemma SrejNamesExpected(rx: Receiver, e: Event)
    requires rx.ring.Shaped()
    ensures var reply := RecvStep(Documented, rx, e).reply;
            reply.Some? && reply.value.flag == SREJ ==>
              HandsAhead(rx, e) && reply.value.seqNum == rx.expectedSeqNum
  {
  }

  lemma ReplyIsServed(setup: Setup, sys: System, rx: Receiver, reply: Packet)
    requires SysInv(setup, sys) && InvDocumented(setup.file, sys.server.win.Curr(), rx)
    requires sys.rx.expectedSeqNum <= rx.expectedSeqNum
    requires reply.flag == ACK_RR ==> reply.seqNum + 1 == rx.expectedSeqNum
    requires reply.flag == SREJ ==> reply.seqNum == sys.rx.expectedSeqNum < sys.server.win.Curr()
    requires ReadsFeedback(sys.server)
    ensures Serves(setup, sys.server, rx, reply)
  {
    hide InvDocumented, DataWire, FeedbackWire, Encode, Add32;
    InvIsBelowTop(setup.file, sys.server.win.Curr(), rx);
    InvIsBelowTop(setup.file, sys.server.win.Curr(), sys.rx);
    if reply.flag == SREJ {
      ResentIsGenuine(setup.file, setup.winSize, sys.server, SREJ_DATA, reply.seqNum);
    } else if reply.flag == ACK_RR {
      AddWraps(reply.seqNum, 1);
    }
  }

  lemma InvIsBelowTop(file: seq<seq<byte>>, top: nat, rx: Receiver)
    requires InvDocumented(file, top, rx)
    ensures 1 <= rx.expectedSeqNum <= top <= |file| + 1 && |file| + 1 < TWO_32
  {
  }

  lemma FeedbackIsServed(setup: Setup, sys: System, a: Action)
    requires SysInv(setup, sys) && a.RcopyTurn? && Enabled(setup, sys, a)
    ensures var Reaction(rx, reply) := RecvStep(Documented, sys.rx, RcopyEvent(setup, a));
            reply.Some? && ReadsFeedback(sys.server) ==> Serves(setup, sys.server, rx, reply.value)
  {
    var Reaction(rx, reply) := RecvStep(Documented, sys.rx, RcopyEvent(setup, a));
    ReceiverStepKeepsInv(setup, sys, a);
    ArrivalsFit(setup, sys, a);
    SrejNamesExpected(sys.rx, RcopyEvent(setup, a));
    if reply.Some? && ReadsFeedback(sys.server) {
      ReplyIsServed(setup, sys, rx, reply.value);
    }
  }

  /**
   The receiver's feedback does what it asks for if it gets through at once: the server
   answers an SREJ with exactly the missing chunk, and an RR slides its window to the
   expected number, in every reachable state.
   */
  lemma FeedbackIsEffective(setup: Setup, acts: seq<Action>, a: Action)
    requires SetupOk(setup) && setup.rule.Documented? && a.RcopyTurn? && Enabled(setup, Exec(setup, acts), a)
    ensures var sys := Exec(setup, acts);
            var Reaction(rx, reply) := RecvStep(Documented, sys.rx, RcopyEvent(setup, a));
            reply.Some? && ReadsFeedback(sys.server) ==> Serves(setup, sys.server, rx, reply.value)
  {
    ReachableInv(setup, acts);
    FeedbackIsServed(setup, Exec(setup, acts), a);
  }

  /** An end-of-file acknowledgement that reaches the waiting server. */
  predicate EofAckArrives(setup: Setup, sys: System, a: Action) {
    && a.ServerTurn? && a.ready && a.wire in sys.toServer && sys.server.state == WaitEofAck
    && ServerEnv(setup, a).recv.Got? && ServerEnv(setup, a).recv.packet.flag == EOF_ACK
  }

  /** It ends the server, comes from a receiver that has finished, and names what that still expected. */
  lemma EofAckIsHonest(setup: Setup, sys: System, a: Action)
    requires LinkInv(setup, sys) && EofAckArrives(setup, sys, a)
    ensures Act(setup, sys, a).server.state == State.Done
    ensures sys.rx.done && ServerEnv(setup, a).recv.packet.seqNum == sys.rx.expectedSeqNum
  {
    FeedbackIsHonest(setup, sys, a);
  }

  /**
   When the server ends on an EOF_ACK, the receiver has finished and the number in that
   packet, which the server does not look at, tells what the output is: all chunks below
   it, and the whole file if and only if it is one past the last chunk.
   */
  lemma EofAckTellsTheOutput(setup: Setup, acts: seq<Action>, a: Action)
    requires SetupOk(setup) && setup.rule.Documented? && EofAckArrives(setup, Exec(setup, acts), a)
    ensures var sys, n := Exec(setup, acts), ServerEnv(setup, a).recv.packet.seqNum;
            && Act(setup, sys, a).server.state == State.Done && sys.rx.done
            && 1 <= n <= |setup.file| + 1 && sys.rx.ring.out == Flatten(setup.file[..n - 1])
            && (sys.rx.ring.out == Flatten(setup.file) <==> n == |setup.file| + 1)
  {
    ReachableInv(setup, acts);
    EofAckIsHonest(setup, Exec(setup, acts), a);
    WholeFileAtEof(setup, acts);
  }

  lemma ExecSnoc(setup: Setup, acts: seq<Action>, a: Action)
    requires setup.winSize > 0
    ensures Exec(setup, acts + [a]) == Act(setup, Exec(setup, acts), a)
  {
    assert (acts + [a])[..|acts|] == acts;
  }

  /** An end of file and its acknowledgement, if both get through, end both sides, whatever is missing. */
  lemma EofAckEndsBothSides(setup: Setup, acts: seq<Action>, n: u32, junk: byte)
    requires SetupOk(setup)
    requires var sys := Exec(setup, acts);
             && sys.server.state == WaitEofAck && !sys.rx.done
             && Encode(setup.serverHost, Packet(END_OF_FILE, n, [0])) in sys.toRcopy
    ensures var sys := Exec(setup, acts);
            var eof := RcopyTurn(true, Encode(setup.serverHost, Packet(END_OF_FILE, n, [0])), Intact, junk);
            var reply := Packet(EOF_ACK, sys.rx.expectedSeqNum, [junk]);
            var ack := ServerTurn(true, true, Encode(setup.rcopyHost, reply), Intact);
            var end := Exec(setup, acts + [eof] + [ack]);
            end.rx == sys.rx.(done := true) && end.server == sys.server.(state := State.Done)
  {
    var sys := Exec(setup, acts);
    var last := Packet(END_OF_FILE, n, [0]);
    var eof := RcopyTurn(true, Encode(setup.serverHost, last), Intact, junk);
    var reply := Packet(EOF_ACK, sys.rx.expectedSeqNum, [junk]);
    DeliveredIsPacketOrCrcError(setup.serverHost, setup.rcopyHost, last, Intact);
    DeliveredIsPacketOrCrcError(setup.rcopyHost, setup.serverHost, reply, Intact);
    ExecSnoc(setup, acts, eof);
    ExecSnoc(setup, acts + [eof], ServerTurn(true, true, Encode(setup.rcopyHost, reply), Intact));
  }

  // ----- a lost acknowledgement, under either rule

  /** A wire that carries a chunk numbered below `curr`. */
  ghost predicate ChunkWire(setup: Setup, curr: nat, w: seq<byte>) {
    exists p :: w == Encode(setup.serverHost, p) && Genuine(setup.file, p)
             && p.flag != END_OF_FILE && p.seqNum < curr
  }

  ghost predicate OnlyChunksOut(setup: Setup, sys: System) {
    forall w <- sys.toRcopy :: ChunkWire(setup, sys.server.win.Curr(), w)
  }

  lemma EofSetsFlag(setup: Setup, s: Session, env: Env)
    requires SetupOk(setup) && Inv(setup.file, setup.winSize, s)
    ensures var Step(next, out) := Next(setup.file, s, env);
            !next.eofSent ==> !s.eofSent && forall p <- out :: p.flag != END_OF_FILE
  {
    StepKeepsInv(setup.file, setup.winSize, s, env);
    if env.recv.Got? {
      ResentIsGenuine(setup.file, setup.winSize, s, SREJ_DATA, env.recv.packet.seqNum);
    }
    ResentIsGenuine(setup.file, setup.winSize, s, TIMEOUT_DATA, Wrap(s.win.lower));
  }

  lemma ServerSendsOnlyChunks(setup: Setup, sys: System, a: Action)
    requires SenderInv(setup, sys) && a.ServerTurn? && Enabled(setup, sys, a)
    requires OnlyChunksOut(setup, sys) && !Act(setup, sys, a).server.eofSent
    ensures OnlyChunksOut(setup, Act(setup, sys, a)) && !sys.server.eofSent
  {
    var step := Next(setup.file, sys.server, ServerEnv(setup, a));
    var curr := step.next.win.Curr();
    EofSetsFlag(setup, sys.server, ServerEnv(setup, a));
    StepKeepsInv(setup.file, setup.winSize, sys.server, ServerEnv(setup, a));
    forall w <- Act(setup, sys, a).toRcopy
      ensures ChunkWire(setup, curr, w)
    {
      if w in sys.toRcopy {
        var p :| w == Encode(setup.serverHost, p) && Genuine(setup.file, p)
              && p.flag != END_OF_FILE && p.seqNum < sys.server.win.Curr();
        assert p.seqNum < curr;
      } else {
        var p :| p in step.out && w == Encode(setup.serverHost, p);
      }
    }
  }

  /** Until the server has sent its end of file, only chunks are on the network. */
  lemma {:induction false} OnlyChunksBeforeEof(setup: Setup, acts: seq<Action>)
    requires SetupOk(setup)
    ensures !Exec(setup, acts).server.eofSent ==> OnlyChunksOut(setup, Exec(setup, acts))
    decreases |acts|
  {
    if acts != [] {
      var init, a := acts[..|acts| - 1], acts[|acts| - 1];
      OnlyChunksBeforeEof(setup, init);
      ReachableSender(setup, init);
      var before := Exec(setup, init);
      if a.ServerTurn? && Enabled(setup, before, a) && !Exec(setup, acts).server.eofSent {
        EofSetsFlag(setup, before.server, ServerEnv(setup, a));
        ServerSendsOnlyChunks(setup, before, a);
      }
    }
  }

  /** The first transmission of chunk `n`. */
  function FirstWire(setup: Setup, n: u32): seq<byte>
    requires 1 <= n <= |setup.file|
  {
    Encode(setup.serverHost, Packet(DATA, n, setup.file[n - 1]))
  }

  /** Every chunk below curr has been sent, so a copy of it may be delivered at any time. */
  ghost predicate EveryChunkOut(setup: Setup, sys: System) {
    forall n: u32 :: 1 <= n <= |setup.file| && n < sys.server.win.Curr() ==> FirstWire(setup, n) in sys.toRcopy
  }

  lemma ServerTurnSendsChunks(setup: Setup, sys: System, a: Action)
    requires SenderInv(setup, sys) && EveryChunkOut(setup, sys) && a.ServerTurn? && Enabled(setup, sys, a)
    ensures EveryChunkOut(setup, Act(setup, sys, a))
  {
    hide Next, Encode, Decode, Genuine, DataWire;
    var after := Act(setup, sys, a);
    StepKeepsInv(setup.file, setup.winSize, sys.server, ServerEnv(setup, a));
    StepCounts(setup.file, setup.winSize, sys.server, ServerEnv(setup, a));
    var out := Next(setup.file, sys.server, ServerEnv(setup, a)).out;
    forall n: u32 | 1 <= n <= |setup.file| && n < after.server.win.Curr()
      ensures FirstWire(setup, n) in after.toRcopy
    {
      if n >= sys.server.win.Curr() {
        assert out[0] == Packet(DATA, n, setup.file[n - 1]) && out[0] in out;
      }
    }
  }

  lemma {:induction false} EveryChunkIsOut(setup: Setup, acts: seq<Action>)
    requires SetupOk(setup)
    ensures EveryChunkOut(setup, Exec(setup, acts))
    decreases |acts|
  {
    if acts != [] {
      var init, a := acts[..|acts| - 1], acts[|acts| - 1];
      EveryChunkIsOut(setup, init);
      ReachableSender(setup, init);
      if a.ServerTurn? && Enabled(setup, Exec(setup, init), a) {
        ServerTurnSendsChunks(setup, Exec(setup, init), a);
      }
    }
  }

  /** The window is full, and the receiver has passed everything in it. */
  predicate FullAndPassed(sys: System) {
    !sys.server.eofSent && !sys.server.win.Open() && sys.rx.expectedSeqNum == sys.server.win.Curr()
  }

  /** No RR for a number in the window gets through. */
  predicate RRLost(setup: Setup, lower: nat, a: Action) {
    a.ServerTurn? ==>
      var got := ServerEnv(setup, a).recv;
      got.Got? && got.packet.flag == ACK_RR ==> got.packet.seqNum < lower
  }

  /** Nothing has moved: only turns, tries and time have been spent. */
  ghost predicate Stalled(start: System, sys: System) {
    && sys.server.win == start.server.win && !sys.server.eofSent
    && sys.rx.ring == start.rx.ring && sys.rx.expectedSeqNum == start.rx.expectedSeqNum
    && sys.toServer == start.toServer
  }

  lemma StalledServer(setup: Setup, s: Session, env: Env)
    requires SetupOk(setup) && Inv(setup.file, setup.winSize, s) && !s.eofSent && !s.win.Open()
    requires env.recv.Got? && env.recv.packet.flag == ACK_RR ==> env.recv.packet.seqNum < s.win.lower
    ensures var next := Next(setup.file, s, env).next;
            next.win == s.win && !next.eofSent
  {
  }

  lemma StalledReceiver(setup: Setup, sys: System, a: Action)
    requires SenderInv(setup, sys) && OnlyChunksOut(setup, sys) && a.RcopyTurn? && Enabled(setup, sys, a)
    requires sys.rx.expectedSeqNum == sys.server.win.Curr()
    ensures var Reaction(next, reply) := RecvStep(setup.rule, sys.rx, RcopyEvent(setup, a));
            && reply == None && (a.ready ==> next == sys.rx)
            && next.ring == sys.rx.ring && next.expectedSeqNum == sys.rx.expectedSeqNum
  {
    if a.ready {
      var p :| a.wire == Encode(setup.serverHost, p) && Genuine(setup.file, p)
            && p.flag != END_OF_FILE && p.seqNum < sys.server.win.Curr();
      DeliveredIsPacketOrCrcError(setup.serverHost, setup.rcopyHost, p, a.fault);
    }
  }

  lemma StallGoesOn(setup: Setup, start: System, sys: System, a: Action)
    requires SenderInv(setup, sys) && OnlyChunksOut(setup, sys)
    requires FullAndPassed(start) && Stalled(start, sys) && RRLost(setup, start.server.win.lower, a)
    ensures Stalled(start, Act(setup, sys, a))
  {
    if Enabled(setup, sys, a) {
      if a.ServerTurn? {
        StalledServer(setup, sys.server, ServerEnv(setup, a));
      } else {
        StalledReceiver(setup, sys, a);
        assert Wires(setup.rcopyHost, []) == {};
      }
    }
  }

  /**
   A lost RR for a full window silences both sides. Once the receiver has passed the whole
   of a full window, then as long as no RR for it gets through, whatever else is delivered:
   nothing is written, no reply is sent, and the window does not move.
   */
  lemma {:induction false} LostAcknowledgementStalls(setup: Setup, acts: seq<Action>, more: seq<Action>)
    requires SetupOk(setup) && FullAndPassed(Exec(setup, acts))
    requires forall a <- more :: RRLost(setup, Exec(setup, acts).server.win.lower, a)
    ensures Stalled(Exec(setup, acts), Exec(setup, acts + more))
    decreases |more|
  {
    if more == [] {
      assert acts + more == acts;
    } else {
      var init, a := more[..|more| - 1], more[|more| - 1];
      LostAcknowledgementStalls(setup, acts, init);
      assert acts + more == (acts + init) + [a];
      ReachableSender(setup, acts + init);
      OnlyChunksBeforeEof(setup, acts + init);
      StallGoesOn(setup, Exec(setup, acts), Exec(setup, acts + init), a);
    }
  }

  /** The turns that the server has taken in a run. */
  function ServerEnvs(setup: Setup, acts: seq<Action>): seq<Env>
    requires setup.winSize > 0
    decreases |acts|
  {
    if acts == [] then []
    else
      var init, a := acts[..|acts| - 1], acts[|acts| - 1];
      if a.ServerTurn? && Enabled(setup, Exec(setup, init), a) then ServerEnvs(setup, init) + [ServerEnv(setup, a)]
      else ServerEnvs(setup, init)
  }

  lemma ServerEnvsSnoc(setup: Setup, acts: seq<Action>, a: Action)
    requires setup.winSize > 0
    ensures ServerEnvs(setup, acts + [a]) ==
            if a.ServerTurn? && Enabled(setup, Exec(setup, acts), a)
            then ServerEnvs(setup, acts) + [ServerEnv(setup, a)] else ServerEnvs(setup, acts)
  {
    hide Exec, Enabled;
    assert (acts + [a])[..|acts|] == acts;
  }

  lemma {:induction false} ServerEnvsMakeTheServer(setup: Setup, acts: seq<Action>)
    requires setup.winSize > 0
    ensures Exec(setup, acts).server == Run(setup.file, Start(setup.winSize), ServerEnvs(setup, acts)).next
    decreases |acts|
  {
    hide Next, RecvStep, Receives, Delivered;
    if acts != [] {
      var init, a := acts[..|acts| - 1], acts[|acts| - 1];
      ServerEnvsMakeTheServer(setup, init);
      if a.ServerTurn? && Enabled(setup, Exec(setup, init), a) {
        RunSnoc(setup.file, Start(setup.winSize), ServerEnvs(setup, init), ServerEnv(setup, a));
      }
    }
  }

  /** The silence ends: after enough turns the server is done, and nothing more has been written. */
  lemma SilenceEndsInDone(setup: Setup, acts: seq<Action>, more: seq<Action>)
    requires SetupOk(setup) && FullAndPassed(Exec(setup, acts))
    requires forall a <- more :: RRLost(setup, Exec(setup, acts).server.win.lower, a)
    requires var envs := ServerEnvs(setup, acts + more);
             |envs| >= TurnBound(|setup.file|, ReceivedIn(setup.file, Start(setup.winSize), envs))
    ensures Stalled(Exec(setup, acts), Exec(setup, acts + more))
    ensures Exec(setup, acts + more).server.state == State.Done
  {
    hide Exec, ServerEnvs, Run;
    LostAcknowledgementStalls(setup, acts, more);
    ServerEnvsMakeTheServer(setup, acts + more);
    SessionTerminates(setup.file, setup.winSize, ServerEnvs(setup, acts + more));
  }

  // ----- the same system with the receiver as written

  /** The calls of `recvData` in a run. */
  function Calls(setup: Setup, acts: seq<Action>): seq<Event>
    requires setup.winSize > 0
    decreases |acts|
  {
    if acts == [] then []
    else
      var init, a := acts[..|acts| - 1], acts[|acts| - 1];
      if a.RcopyTurn? && Enabled(setup, Exec(setup, init), a) then Calls(setup, init) + [RcopyEvent(setup, a)]
      else Calls(setup, init)
  }

  lemma {:induction false} CallsMakeTheReceiver(setup: Setup, acts: seq<Action>)
    requires SetupOk(setup)
    ensures Exec(setup, acts).rx == Receive(setup.rule, setup.winSize, Calls(setup, acts)).0
    ensures forall e <- Calls(setup, acts) :: GenuineEvent(setup.file, e)
    decreases |acts|
  {
    if acts != [] {
      var init, a := acts[..|acts| - 1], acts[|acts| - 1];
      CallsMakeTheReceiver(setup, init);
      if a.RcopyTurn? && Enabled(setup, Exec(setup, init), a) {
        ReachableSender(setup, init);
        ArrivalsAreGenuine(setup, Exec(setup, init), a);
        ReceiveSnoc(setup.rule, setup.winSize, Calls(setup, init), RcopyEvent(setup, a));
      }
    }
  }

  /**
   The program as written, in the whole system: in a reachable state the output is the
   chunks below the expected number if and only if no expected chunk has arrived after
   one that was ahead of its turn.
   */
  lemma AsWrittenDeliversIffNothingRepaired(setup: Setup, buffSize: nat, acts: seq<Action>)
    requires SetupOk(setup) && setup.rule.AsWritten? && FullChunks(setup.file, buffSize)
    ensures OnTrack(setup.file, Exec(setup, acts).rx) <==> NeverRepaired(setup.winSize, Calls(setup, acts))
  {
    CallsMakeTheReceiver(setup, acts);
    AsWrittenCorrectIffNothingRepaired(setup.file, buffSize, setup.winSize, Calls(setup, acts));
  }
}
