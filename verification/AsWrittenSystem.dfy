/**
 The whole file transfer with the receiver as written: what it keeps of the nesting of the
 two windows and of the freedom from collisions, and exactly when it loses the rest. The
 ring holds data only, so each slot is labelled here with the number of the packet that
 was last put into it.
 */
module AsWrittenSystem {
  import opened Bytes
  import opened Ring
  import opened Srej
  import opened Server
  import opened Buffer
  import opened Rcopy
  import opened Transfer

  // ----- labels

  /** The labels after one call: a packet that has just been put into its slot labels it. */
  function Relabel(labels: seq<nat>, rx: Receiver, e: Event): (after: seq<nat>)
    requires rx.ring.Shaped() && |labels| == rx.ring.winSize
    ensures |after| == |labels|
  {
    ReceiverStaysShaped(AsWritten, rx, e);
    var cells := RecvStep(AsWritten, rx, e).next.ring.cells;
    if HandsAhead(rx, e) && At(rx.ring.cells, e.recv.packet.seqNum).written
       && !At(cells, e.recv.packet.seqNum).written
    then labels[Slot(e.recv.packet.seqNum, |labels|) := e.recv.packet.seqNum]
    else labels
  }

  function Labels(setup: Setup, acts: seq<Action>): (labels: seq<nat>)
    requires setup.winSize > 0
    ensures |labels| == setup.winSize
  {
    if acts == [] then seq(setup.winSize, _ => 0)
    else
      var init, a := acts[..|acts| - 1], acts[|acts| - 1];
      if a.RcopyTurn? && Enabled(setup, Exec(setup, init), a)
      then Relabel(Labels(setup, init), Exec(setup, init).rx, RcopyEvent(setup, a))
      else Labels(setup, init)
  }

  /** A waiting packet is a chunk below `top` and `limit`, in the slot of its number. */
  predicate Labelled(file: seq<seq<byte>>, cells: seq<Cell>, labels: seq<nat>, top: nat, limit: nat)
    requires |labels| == |cells| && top <= |file| + 1
  {
    forall i :: 0 <= i < |cells| && !cells[i].written ==>
      && 1 <= labels[i] < top && labels[i] < limit
      && Slot(labels[i], |cells|) == i && cells[i].data == file[labels[i] - 1]
  }

  /** No packet waits under a number below `base`. */
  predicate NoneBelow(cells: seq<Cell>, labels: seq<nat>, base: nat)
    requires |labels| == |cells|
  {
    forall i :: 0 <= i < |cells| && !cells[i].written ==> base <= labels[i]
  }

  /**
   What the receiver as written keeps when fed fitting packets numbered below `top`. The
   base waits under its own number. The count may fall short of the packets that wait; while
   it is right, none is below the base.
   */
  predicate InvLabelled(file: seq<seq<byte>>, top: nat, rx: Receiver, labels: seq<nat>) {
    && InvAsWritten(rx) && |labels| == rx.ring.winSize
    && top <= |file| + 1 && |file| + rx.ring.winSize + 1 < TWO_32 && rx.expectedSeqNum >= 1
    && Labelled(file, rx.ring.cells, labels, top, rx.expectedSeqNum + rx.ring.winSize)
    && (rx.ring.NeedFlush() ==> labels[Slot(rx.ring.nextSeqNum, |labels|)] == rx.ring.nextSeqNum)
    && rx.ring.storedPackets <= Count(rx.ring.cells)
    && (rx.ring.NeedFlush() && rx.ring.storedPackets == Count(rx.ring.cells) ==>
          NoneBelow(rx.ring.cells, labels, rx.ring.nextSeqNum))
  }

  /** The buffer is open at every call also as written: the expected number's slot would be the last. */
  lemma OpenAsWritten(file: seq<seq<byte>>, top: nat, rx: Receiver, labels: seq<nat>)
    requires InvLabelled(file, top, rx, labels)
    ensures rx.ring.Open()
  {
    var cells, winSize := rx.ring.cells, rx.ring.winSize;
    CountBound(cells);
    var i := Slot(rx.expectedSeqNum, winSize);
    if rx.ring.storedPackets == winSize {
      assert !cells[i].written;
      SlotsDiffer(rx.expectedSeqNum, labels[i], winSize);
    }
  }

  /** What becomes of a packet ahead, within a lap of the expected number. */
  lemma AheadAsWritten(rx: Receiver, p: Packet)
    requires InvAsWritten(rx) && rx.ring.Open() && p.payload != []
    requires rx.expectedSeqNum < p.seqNum < rx.expectedSeqNum + rx.ring.winSize
    requires p.seqNum + rx.ring.winSize < TWO_32
    ensures var r := rx.ring;
            var based := r.(nextSeqNum := if r.NeedFlush() then r.nextSeqNum else p.seqNum);
            OnAhead(AsWritten, rx, p).next ==
              if r.NeedFlush() && p.seqNum < r.nextSeqNum then rx.(done := true)
              else if !At(r.cells, p.seqNum).written then rx.(ring := based)
              else rx.(ring := based.Set(p.seqNum, Cell(p.payload, false)).(storedPackets := r.storedPackets + 1))
  {
    hide Add32;
    AddWraps(rx.ring.nextSeqNum, rx.ring.winSize);
    AddWraps(p.seqNum, rx.ring.winSize);
  }

  lemma LabelledAfterStore(
      file: seq<seq<byte>>, cells: seq<Cell>, labels: seq<nat>, top: nat, limit: nat, n: nat)
    requires cells != [] && |labels| == |cells| && top <= |file| + 1
    requires Labelled(file, cells, labels, top, limit) && 1 <= n < top && n < limit
    ensures var i := Slot(n, |cells|);
            Labelled(file, cells[i := Cell(file[n - 1], false)], labels[i := n], top, limit)
  {
  }

  /** The ring with one more packet in it, and the base moved to `base`. */
  function WithPacket(r: PacketRing, p: Packet, base: u32): PacketRing
    requires r.Shaped()
  {
    r.Set(p.seqNum, Cell(p.payload, false)).(nextSeqNum := base, storedPackets := r.storedPackets + 1)
  }

  lemma NoneBelowAfterStore(cells: seq<Cell>, labels: seq<nat>, base: nat, n: nat, data: seq<byte>)
    requires cells != [] && |labels| == |cells| && NoneBelow(cells, labels, base) && base <= n
    ensures var i := Slot(n, |cells|);
            NoneBelow(cells[i := Cell(data, false)], labels[i := n], base)
  {
  }

  lemma CountAfterStore(cells: seq<Cell>, i: nat, data: seq<byte>)
    requires i < |cells| && cells[i].written
    ensures Count(cells[i := Cell(data, false)]) == Count(cells) + 1
  {
    CountUpdate(cells, i, Cell(data, false));
  }

  lemma RightCountHasNoneBelow(r: PacketRing, labels: seq<nat>, base: nat)
    requires r.Shaped() && |labels| == r.winSize && 0 <= r.storedPackets == Count(r.cells)
    requires r.NeedFlush() ==> NoneBelow(r.cells, labels, base)
    ensures NoneBelow(r.cells, labels, base)
  {
    CountBound(r.cells);
  }

  lemma StoredKeepsLabels(file: seq<seq<byte>>, top: nat, rx: Receiver, labels: seq<nat>, p: Packet, base: u32)
    requires InvLabelled(file, top, rx, labels) && At(rx.ring.cells, p.seqNum).written
    requires 1 <= p.seqNum < top && p.payload == file[p.seqNum - 1]
    requires rx.expectedSeqNum < p.seqNum < rx.expectedSeqNum + rx.ring.winSize
    requires base <= p.seqNum && base == if rx.ring.NeedFlush() then rx.ring.nextSeqNum else p.seqNum
    requires InvAsWritten(rx.(ring := WithPacket(rx.ring, p, base)))
    ensures InvLabelled(file, top, rx.(ring := WithPacket(rx.ring, p, base)),
                        labels[Slot(p.seqNum, rx.ring.winSize) := p.seqNum])
  {
    hide Labelled, NoneBelow, Count;
    var r := rx.ring;
    var i := Slot(p.seqNum, r.winSize);
    var stored := r.cells[i := Cell(p.payload, false)];
    assert WithPacket(r, p, base).cells == stored;
    LabelledAfterStore(file, r.cells, labels, top, rx.expectedSeqNum + r.winSize, p.seqNum);
    CountAfterStore(r.cells, i, p.payload);
    if r.storedPackets == Count(r.cells) {
      RightCountHasNoneBelow(r, labels, base);
      NoneBelowAfterStore(r.cells, labels, base, p.seqNum, p.payload);
    }
  }

  /** A packet ahead labels its slot exactly when it is put into it. */
  lemma RelabelAhead(rx: Receiver, labels: seq<nat>, e: Event)
    requires InvAsWritten(rx) && rx.ring.Open() && HandsAhead(rx, e) && |labels| == rx.ring.winSize
    requires e.recv.packet.payload != [] && e.recv.packet.seqNum + rx.ring.winSize < TWO_32
    requires e.recv.packet.seqNum < rx.expectedSeqNum + rx.ring.winSize
    ensures var p := e.recv.packet;
            Relabel(labels, rx, e) ==
              if (rx.ring.NeedFlush() && p.seqNum < rx.ring.nextSeqNum) || !At(rx.ring.cells, p.seqNum).written
              then labels else labels[Slot(p.seqNum, |labels|) := p.seqNum]
  {
    hide OnAhead, RecvStep;
    CallKinds(AsWritten, rx, e);
    AheadAsWritten(rx, e.recv.packet);
  }

  lemma AheadKeepsLabels(file: seq<seq<byte>>, top: nat, rx: Receiver, labels: seq<nat>, e: Event)
    requires InvLabelled(file, top, rx, labels) && FittingEvent(file, top, rx, e) && HandsAhead(rx, e)
    requires e.recv.packet.payload != []
    ensures InvLabelled(file, top, OnAhead(AsWritten, rx, e.recv.packet).next, Relabel(labels, rx, e))
  {
    hide Labelled, NoneBelow, Count, OnAhead, Relabel;
    var p, r := e.recv.packet, rx.ring;
    OpenAsWritten(file, top, rx, labels);
    AheadAsWritten(rx, p);
    StoreKeepsInv(rx, p);
    RelabelAhead(rx, labels, e);
    if !(r.NeedFlush() && p.seqNum < r.nextSeqNum) && At(r.cells, p.seqNum).written {
      StoredKeepsLabels(file, top, rx, labels, p, if r.NeedFlush() then r.nextSeqNum else p.seqNum);
    }
  }

  lemma ExpectedKeepsLabels(file: seq<seq<byte>>, top: nat, rx: Receiver, labels: seq<nat>, e: Event)
    requires InvLabelled(file, top, rx, labels) && FittingEvent(file, top, rx, e) && HandsExpected(rx, e)
    ensures InvLabelled(file, top, RecvStep(AsWritten, rx, e).next, labels)
  {
    ProgressStep(rx, e);
    if rx.ring.NeedFlush() {
      DrainFrees(rx.ring, rx.ring.winSize);
    }
  }

  lemma StepKeepsLabels(file: seq<seq<byte>>, top: nat, rx: Receiver, labels: seq<nat>, e: Event)
    requires InvLabelled(file, top, rx, labels) && FittingEvent(file, top, rx, e)
    requires forall k :: 0 <= k < |file| ==> file[k] != []
    ensures InvLabelled(file, top, RecvStep(AsWritten, rx, e).next, Relabel(labels, rx, e))
    ensures RecvStep(AsWritten, rx, e).next.ring.winSize == rx.ring.winSize
  {
    ReceiverStaysShaped(AsWritten, rx, e);
    if HandsAhead(rx, e) {
      AheadKeepsLabels(file, top, rx, labels, e);
    } else if HandsExpected(rx, e) {
      ExpectedKeepsLabels(file, top, rx, labels, e);
    }
  }

  // ----- the invariant of the system

  ghost predicate WrittenInv(setup: Setup, sys: System, labels: seq<nat>) {
    && setup.rule.AsWritten? && LinkInv(setup, sys)
    && InvLabelled(setup.file, sys.server.win.Curr(), sys.rx, labels)
  }

  lemma ArrivalsFitAsWritten(setup: Setup, sys: System, labels: seq<nat>, a: Action)
    requires WrittenInv(setup, sys, labels) && a.RcopyTurn? && Enabled(setup, sys, a)
    ensures FittingEvent(setup.file, sys.server.win.Curr(), sys.rx, RcopyEvent(setup, a))
  {
    ArrivalsAreGenuine(setup, sys, a);
  }

  lemma RcopyTurnKeepsWritten(setup: Setup, sys: System, labels: seq<nat>, a: Action)
    requires WrittenInv(setup, sys, labels) && a.RcopyTurn? && Enabled(setup, sys, a)
    ensures WrittenInv(setup, Act(setup, sys, a), Relabel(labels, sys.rx, RcopyEvent(setup, a)))
  {
    hide Labelled, NoneBelow, Count, RecvStep, Relabel, Genuine, Encode, Inv;
    var e := RcopyEvent(setup, a);
    var Reaction(next, reply) := RecvStep(AsWritten, sys.rx, e);
    ArrivalsFitAsWritten(setup, sys, labels, a);
    StepKeepsLabels(setup.file, sys.server.win.Curr(), sys.rx, labels, e);
    RRNamesLastPassed(sys.rx, e);
    EofIsAcknowledgedOnce(AsWritten, sys.rx, e);
    FeedbackWiresGrow(setup, sys, next, reply);
  }

  lemma LabelledBelowHigherTop(file: seq<seq<byte>>, rx: Receiver, labels: seq<nat>, top: nat, higher: nat)
    requires InvLabelled(file, top, rx, labels) && top <= higher <= |file| + 1
    ensures InvLabelled(file, higher, rx, labels)
  {
  }

  lemma ServerTurnKeepsWritten(setup: Setup, sys: System, labels: seq<nat>, a: Action)
    requires WrittenInv(setup, sys, labels) && a.ServerTurn? && Enabled(setup, sys, a)
    ensures WrittenInv(setup, Act(setup, sys, a), labels)
  {
    ServerTurnKeepsLink(setup, sys, a);
    LabelledBelowHigherTop(
      setup.file, sys.rx, labels, sys.server.win.Curr(), Act(setup, sys, a).server.win.Curr());
  }

  lemma {:induction false} ReachableAsWritten(setup: Setup, acts: seq<Action>)
    requires SetupOk(setup) && setup.rule.AsWritten?
    ensures WrittenInv(setup, Exec(setup, acts), Labels(setup, acts))
    decreases |acts|
  {
    if acts != [] {
      var init, a := acts[..|acts| - 1], acts[|acts| - 1];
      ReachableAsWritten(setup, init);
      var before := Exec(setup, init);
      if Enabled(setup, before, a) {
        if a.ServerTurn? {
          ServerTurnKeepsWritten(setup, before, Labels(setup, init), a);
        } else {
          RcopyTurnKeepsWritten(setup, before, Labels(setup, init), a);
        }
      }
    }
  }

  // ----- the parts of nesting that hold

  /**
   The server has slid past nothing that the receiver has not passed, its window spans at
   most winSize numbers, every RR ever sent acknowledges less than the expected number, and
   the buffer is open.
   */
  lemma PartsOfNesting(setup: Setup, acts: seq<Action>)
    requires SetupOk(setup) && setup.rule.AsWritten?
    ensures var sys := Exec(setup, acts);
            && sys.server.win.lower <= sys.rx.expectedSeqNum
            && sys.server.win.Curr() <= sys.server.win.lower + setup.winSize
            && sys.rx.ring.Open()
            && forall p: Packet :: Encode(setup.rcopyHost, p) in sys.toServer && p.flag == ACK_RR ==>
                 p.seqNum < sys.rx.expectedSeqNum
  {
    ReachableAsWritten(setup, acts);
    var sys := Exec(setup, acts);
    OpenAsWritten(setup.file, sys.server.win.Curr(), sys.rx, Labels(setup, acts));
    forall p: Packet | Encode(setup.rcopyHost, p) in sys.toServer && p.flag == ACK_RR
      ensures p.seqNum < sys.rx.expectedSeqNum
    {
      assert FeedbackWire(setup, sys.rx, Encode(setup.rcopyHost, p));
      var q :| Encode(setup.rcopyHost, p) == Encode(setup.rcopyHost, q) && Honest(sys.rx, q);
      EncodeInjective(setup.rcopyHost, p, q);
    }
  }

  // ----- expectedSeqNum <= curr

  /** A slot is free somewhere from the base of the ring through number `top`. */
  ghost predicate FreeThrough(r: PacketRing, top: nat)
    requires r.Shaped()
  {
    exists s: nat :: r.nextSeqNum <= s <= top && At(r.cells, s).written
  }

  /** If the call flushes, the run that is flushed ends below the sender's next number. */
  ghost predicate FlushEndsBelow(rx: Receiver, e: Event, top: nat)
    requires rx.ring.Shaped()
  {
    HandsExpected(rx, e) && rx.ring.NeedFlush() ==> FreeThrough(rx.ring, top)
  }

  lemma FlushEndsBelowIffFree(r: PacketRing, top: nat)
    requires BaseOccupied(r) && r.NeedFlush() && top < r.nextSeqNum + r.winSize
    ensures FlushBuffer(AsWritten, r).nextSeqNum <= top <==> FreeThrough(r, top)
  {
    var k := FlushAdvances(r);
    if FreeThrough(r, top) {
      var s: nat :| r.nextSeqNum <= s <= top && At(r.cells, s).written;
      assert s >= r.nextSeqNum + k;
    }
    if r.nextSeqNum + k <= top {
      assert At(r.cells, r.nextSeqNum + k).written;
    }
  }

  lemma StaysNestedIff(file: seq<seq<byte>>, top: nat, rx: Receiver, labels: seq<nat>, e: Event)
    requires InvLabelled(file, top, rx, labels) && FittingEvent(file, top, rx, e)
    requires rx.expectedSeqNum <= top <= rx.expectedSeqNum + rx.ring.winSize
    ensures RecvStep(AsWritten, rx, e).next.expectedSeqNum <= top <==> FlushEndsBelow(rx, e, top)
  {
    hide Labelled, NoneBelow, Count, RecvStep, FreeThrough, Drain;
    CallKinds(AsWritten, rx, e);
    if HandsExpected(rx, e) && rx.ring.NeedFlush() {
      FlushEndsBelowIffFree(rx.ring, top);
    }
  }

  /** In this state and all before it, the receiver expects nothing beyond the sender's next number. */
  predicate AlwaysNested(setup: Setup, acts: seq<Action>)
    requires setup.winSize > 0
    decreases |acts|
  {
    && Exec(setup, acts).rx.expectedSeqNum <= Exec(setup, acts).server.win.Curr()
    && (acts == [] || AlwaysNested(setup, acts[..|acts| - 1]))
  }

  /** Every flush so far found a free slot from the base through the sender's next number. */
  ghost predicate FlushesEndBelow(setup: Setup, acts: seq<Action>)
    requires setup.winSize > 0
    decreases |acts|
  {
    acts == [] ||
    var init, a := acts[..|acts| - 1], acts[|acts| - 1];
    && FlushesEndBelow(setup, init)
    && (a.RcopyTurn? && Enabled(setup, Exec(setup, init), a) ==>
          FlushEndsBelow(Exec(setup, init).rx, RcopyEvent(setup, a), Exec(setup, init).server.win.Curr()))
  }

  lemma ActStaysNestedIff(setup: Setup, sys: System, labels: seq<nat>, a: Action)
    requires WrittenInv(setup, sys, labels) && sys.rx.expectedSeqNum <= sys.server.win.Curr()
    requires Enabled(setup, sys, a)
    ensures Act(setup, sys, a).rx.expectedSeqNum <= Act(setup, sys, a).server.win.Curr() <==>
              (a.RcopyTurn? ==> FlushEndsBelow(sys.rx, RcopyEvent(setup, a), sys.server.win.Curr()))
  {
    if a.RcopyTurn? {
      ArrivalsFitAsWritten(setup, sys, labels, a);
      StaysNestedIff(setup.file, sys.server.win.Curr(), sys.rx, labels, RcopyEvent(setup, a));
    } else {
      ServerTurnKeepsLink(setup, sys, a);
    }
  }

  /**
   Throughout a run the expected number stays within the sender's next number if and only
   if every flush finds a free slot that stops it there.
   */
  lemma {:induction false} NestedIffFlushesEndBelow(setup: Setup, acts: seq<Action>)
    requires SetupOk(setup) && setup.rule.AsWritten?
    ensures AlwaysNested(setup, acts) <==> FlushesEndBelow(setup, acts)
    decreases |acts|
  {
    if acts != [] {
      var init, a := acts[..|acts| - 1], acts[|acts| - 1];
      NestedIffFlushesEndBelow(setup, init);
      ReachableAsWritten(setup, init);
      var before := Exec(setup, init);
      if AlwaysNested(setup, init) && Enabled(setup, before, a) {
        ActStaysNestedIff(setup, before, Labels(setup, init), a);
      }
    }
  }

  // ----- residue: packets that wait below the number the ring is about to serve

  /** The first number the ring is to serve: its base or, with nothing counted, the expected number. */
  function Front(rx: Receiver): u32 {
    if rx.ring.NeedFlush() then rx.ring.nextSeqNum else rx.expectedSeqNum
  }

  /** No packet waits below the front. */
  predicate Clean(rx: Receiver, labels: seq<nat>)
    requires |labels| == |rx.ring.cells|
  {
    NoneBelow(rx.ring.cells, labels, Front(rx))
  }

  /**
   With nothing counted, the packet ahead that is put into the ring has a higher number than
   one that waits there, or the expected packet is written although it waits there.
   */
  predicate LeavesResidue(rx: Receiver, labels: seq<nat>, e: Event)
    requires rx.ring.Shaped() && |labels| == |rx.ring.cells|
  {
    !rx.ring.NeedFlush() &&
    if HandsAhead(rx, e) then
      At(rx.ring.cells, e.recv.packet.seqNum).written && !NoneBelow(rx.ring.cells, labels, e.recv.packet.seqNum)
    else HandsExpected(rx, e) && !At(rx.ring.cells, rx.expectedSeqNum).written
  }

  /** A packet that waits in the lap from the front is the one its slot stands for, or its number is below. */
  lemma OwnOrStale(file: seq<seq<byte>>, top: nat, rx: Receiver, labels: seq<nat>, s: nat)
    requires InvLabelled(file, top, rx, labels) && !At(rx.ring.cells, s).written
    requires Front(rx) <= s < Front(rx) + rx.ring.winSize
    ensures var n := labels[Slot(s, rx.ring.winSize)];
            && 1 <= n < top && At(rx.ring.cells, s).data == file[n - 1]
            && (n == s || n < Front(rx))
  {
    LapInjective(Front(rx), s, rx.ring.winSize);
  }

  /** In a clean ring a waiting packet of the lap is the one its number asks for. */
  lemma CleanSlot(file: seq<seq<byte>>, top: nat, rx: Receiver, labels: seq<nat>, s: nat)
    requires InvLabelled(file, top, rx, labels) && Clean(rx, labels) && !At(rx.ring.cells, s).written
    requires Front(rx) <= s < Front(rx) + rx.ring.winSize
    ensures labels[Slot(s, rx.ring.winSize)] == s < top && At(rx.ring.cells, s).data == file[s - 1]
  {
    OwnOrStale(file, top, rx, labels, s);
  }

  lemma NoneBelowIffBeforeStore(cells: seq<Cell>, labels: seq<nat>, n: nat, data: seq<byte>)
    requires cells != [] && |labels| == |cells| && At(cells, n).written
    ensures var i := Slot(n, |cells|);
            NoneBelow(cells[i := Cell(data, false)], labels[i := n], n) <==> NoneBelow(cells, labels, n)
  {
    var i := Slot(n, |cells|);
    forall j | 0 <= j < |cells| && !cells[j].written && NoneBelow(cells[i := Cell(data, false)], labels[i := n], n)
      ensures n <= labels[j]
    {
      assert !cells[i := Cell(data, false)][j].written;
    }
  }

  lemma AheadStaysCleanIff(file: seq<seq<byte>>, top: nat, rx: Receiver, labels: seq<nat>, e: Event)
    requires InvLabelled(file, top, rx, labels) && Clean(rx, labels)
    requires FittingEvent(file, top, rx, e) && HandsAhead(rx, e) && e.recv.packet.payload != []
    ensures var next := OnAhead(AsWritten, rx, e.recv.packet).next;
            && |labels| == |next.ring.cells|
            && (Clean(next, Relabel(labels, rx, e)) <==> !LeavesResidue(rx, labels, e))
  {
    var p, r := e.recv.packet, rx.ring;
    OpenAsWritten(file, top, rx, labels);
    AheadAsWritten(rx, p);
    RelabelAhead(rx, labels, e);
    if At(r.cells, p.seqNum).written {
      if r.NeedFlush() {
        if r.nextSeqNum <= p.seqNum {
          NoneBelowAfterStore(r.cells, labels, r.nextSeqNum, p.seqNum, p.payload);
        }
      } else {
        NoneBelowIffBeforeStore(r.cells, labels, p.seqNum, p.payload);
      }
    }
  }

  lemma FlushStaysClean(file: seq<seq<byte>>, top: nat, rx: Receiver, labels: seq<nat>)
    requires InvLabelled(file, top, rx, labels) && Clean(rx, labels) && rx.ring.NeedFlush()
    ensures var ring := FlushBuffer(AsWritten, rx.ring);
            |labels| == |ring.cells| && NoneBelow(ring.cells, labels, ring.nextSeqNum)
  {
    var ring := FlushBuffer(AsWritten, rx.ring);
    var k := FlushAdvances(rx.ring);
    DrainFrees(rx.ring, rx.ring.winSize);
    forall i | 0 <= i < |ring.cells| && !ring.cells[i].written
      ensures ring.nextSeqNum <= labels[i]
    {
      assert labels[i] < ring.nextSeqNum ==> At(ring.cells, labels[i]) == FREE_CELL;
    }
  }

  lemma AcceptStaysCleanIff(file: seq<seq<byte>>, top: nat, rx: Receiver, labels: seq<nat>)
    requires InvLabelled(file, top, rx, labels) && Clean(rx, labels) && !rx.ring.NeedFlush()
    ensures NoneBelow(rx.ring.cells, labels, rx.expectedSeqNum + 1)
            <==> At(rx.ring.cells, rx.expectedSeqNum).written
  {
    var cells, n := rx.ring.cells, rx.expectedSeqNum;
    if !At(cells, n).written {
      CleanSlot(file, top, rx, labels, n);
    }
  }

  lemma ExpectedStaysCleanIff(file: seq<seq<byte>>, top: nat, rx: Receiver, labels: seq<nat>, p: Packet)
    requires InvLabelled(file, top, rx, labels) && Clean(rx, labels) && rx.expectedSeqNum < top
    ensures var next := Accept(AsWritten, rx, p);
            && |labels| == |next.ring.cells|
            && (Clean(next, labels) <==> rx.ring.NeedFlush() || At(rx.ring.cells, rx.expectedSeqNum).written)
  {
    if rx.ring.NeedFlush() {
      FlushStaysClean(file, top, rx, labels);
    } else {
      AcceptStaysCleanIff(file, top, rx, labels);
    }
  }

  lemma StaysCleanIff(file: seq<seq<byte>>, top: nat, rx: Receiver, labels: seq<nat>, e: Event)
    requires InvLabelled(file, top, rx, labels) && Clean(rx, labels) && FittingEvent(file, top, rx, e)
    requires forall k :: 0 <= k < |file| ==> file[k] != []
    ensures var next := RecvStep(AsWritten, rx, e).next;
            && |labels| == |next.ring.cells|
            && (Clean(next, Relabel(labels, rx, e)) <==> !LeavesResidue(rx, labels, e))
  {
    if HandsAhead(rx, e) {
      AheadStaysCleanIff(file, top, rx, labels, e);
    } else if HandsExpected(rx, e) {
      ExpectedStaysCleanIff(file, top, rx, labels, e.recv.packet);
    }
  }

  /** In this state and all before it, no packet has been left behind in the ring. */
  predicate AlwaysClean(setup: Setup, acts: seq<Action>)
    requires setup.winSize > 0
    decreases |acts|
  {
    && Clean(Exec(setup, acts).rx, Labels(setup, acts))
    && (acts == [] || AlwaysClean(setup, acts[..|acts| - 1]))
  }

  predicate NeverLeavesResidue(setup: Setup, acts: seq<Action>)
    requires setup.winSize > 0
    decreases |acts|
  {
    acts == [] ||
    var init, a := acts[..|acts| - 1], acts[|acts| - 1];
    && NeverLeavesResidue(setup, init)
    && (a.RcopyTurn? && Enabled(setup, Exec(setup, init), a) ==>
          !LeavesResidue(Exec(setup, init).rx, Labels(setup, init), RcopyEvent(setup, a)))
  }

  /** Throughout a run the ring is clean if and only if no call leaves residue. */
  lemma {:induction false} CleanIffNoResidueLeft(setup: Setup, acts: seq<Action>)
    requires SetupOk(setup) && setup.rule.AsWritten?
    ensures AlwaysClean(setup, acts) <==> NeverLeavesResidue(setup, acts)
    decreases |acts|
  {
    if acts != [] {
      var init, a := acts[..|acts| - 1], acts[|acts| - 1];
      CleanIffNoResidueLeft(setup, init);
      ReachableAsWritten(setup, init);
      var before, labels := Exec(setup, init), Labels(setup, init);
      if AlwaysClean(setup, init) && Enabled(setup, before, a) && a.RcopyTurn? {
        ArrivalsFitAsWritten(setup, before, labels, a);
        StaysCleanIff(setup.file, before.server.win.Curr(), before.rx, labels, RcopyEvent(setup, a));
      }
    }
  }

  /** A run that holds the chunks of its numbers holds a stretch of the file. */
  lemma OwnChunksAreStretch(file: seq<seq<byte>>, r: PacketRing, k: nat)
    requires r.Shaped() && r.nextSeqNum >= 1 && r.nextSeqNum + k <= |file| + 1
    requires forall s: nat :: r.nextSeqNum <= s < r.nextSeqNum + k ==> At(r.cells, s).data == file[s - 1]
    ensures Waiting(r, k) == file[r.nextSeqNum - 1..r.nextSeqNum - 1 + k]
  {
    hide Slot;
  }

  /** A flush whose run waits under its own numbers writes the chunks of the numbers it passes. */
  lemma OwnFlushIsStretch(file: seq<seq<byte>>, top: nat, r: PacketRing, k: nat)
    requires r.Shaped() && r.nextSeqNum >= 1 && top <= |file| + 1 && k > 0
    requires WroteRun(r, k, FlushBuffer(AsWritten, r))
    requires r.nextSeqNum + k <= top
    requires forall s: nat :: r.nextSeqNum <= s < r.nextSeqNum + k ==> At(r.cells, s).data == file[s - 1]
    ensures var base, ring := r.nextSeqNum, FlushBuffer(AsWritten, r);
            && 1 <= base < ring.nextSeqNum <= top
            && ring.out == r.out + Flatten(file[base - 1..ring.nextSeqNum - 1])
  {
    hide FlushBuffer, Flatten, Waiting, Slot;
    OwnChunksAreStretch(file, r, k);
  }

  /** From a clean ring, a flush writes the chunks of the numbers it passes, all below the sender's next. */
  lemma CleanFlushIsStretch(file: seq<seq<byte>>, top: nat, rx: Receiver, labels: seq<nat>)
    requires InvLabelled(file, top, rx, labels) && Clean(rx, labels) && rx.ring.NeedFlush()
    ensures var base, ring := rx.ring.nextSeqNum, FlushBuffer(AsWritten, rx.ring);
            && 1 <= base < ring.nextSeqNum <= top
            && ring.out == rx.ring.out + Flatten(file[base - 1..ring.nextSeqNum - 1])
  {
    hide Labelled, NoneBelow, Count, Clean, Flatten, FlushBuffer, Waiting, Slot;
    var r := rx.ring;
    var k := FlushAdvances(r);
    CleanSlot(file, top, rx, labels, r.nextSeqNum + k - 1);
    forall s: nat | r.nextSeqNum <= s < r.nextSeqNum + k
      ensures At(r.cells, s).data == file[s - 1]
    {
      CleanSlot(file, top, rx, labels, s);
    }
    OwnFlushIsStretch(file, top, r, k);
  }

  /**
   The packet is in the ring afterwards, under its own number, and the session goes on.
   (A packet that was in the ring already also counts.)
   */
  predicate HeldAsItself(rx: Receiver, labels: seq<nat>, p: Packet)
    requires rx.ring.Shaped() && |labels| == rx.ring.winSize
  {
    !rx.done && !At(rx.ring.cells, p.seqNum).written && labels[Slot(p.seqNum, |labels|)] == p.seqNum
  }

  /** The slot of the packet is taken by one whose number the ring has passed. */
  predicate SlotIsStale(rx: Receiver, labels: seq<nat>, p: Packet)
    requires rx.ring.Shaped() && |labels| == rx.ring.winSize
  {
    !At(rx.ring.cells, p.seqNum).written && labels[Slot(p.seqNum, |labels|)] < Front(rx)
  }

  predicate SlotFitsData(rx: Receiver, p: Packet)
    requires rx.ring.Shaped()
  {
    At(rx.ring.cells, p.seqNum).written || At(rx.ring.cells, p.seqNum).data == p.payload
  }

  predicate BelowBase(rx: Receiver, p: Packet) {
    rx.ring.NeedFlush() && p.seqNum < rx.ring.nextSeqNum
  }

  /**
   What is true of a packet ahead as written, in every reachable state. It ends the session
   if and only if packets are counted in the ring and its number is below their base. It is
   held under its own number if and only if it is not below the base and its slot is not
   taken by a packet that the ring has passed. And it takes its own slot, leaving all
   others alone, if and only if it is not below the base and the slot is free or holds the
   same data; without residue a packet that is not below the base always finds it so.
   */
  lemma AheadIsRejectedIffBelowBase(setup: Setup, acts: seq<Action>, a: Action)
    requires SetupOk(setup) && setup.rule.AsWritten? && a.RcopyTurn?
    requires Enabled(setup, Exec(setup, acts), a) && HandsAhead(Exec(setup, acts).rx, RcopyEvent(setup, a))
    ensures var rx, e := Exec(setup, acts).rx, RcopyEvent(setup, a);
            var labels, p, next := Labels(setup, acts), e.recv.packet, RecvStep(AsWritten, rx, e).next;
            && next.ring.Shaped() && next.ring.winSize == setup.winSize
            && (next.done <==> BelowBase(rx, p))
            && (HeldAsItself(next, Relabel(labels, rx, e), p) <==> !BelowBase(rx, p) && !SlotIsStale(rx, labels, p))
            && (TakesItsOwnSlot(rx, p, next) <==>
                  !BelowBase(rx, p) && SlotFitsData(rx, p))
            && (Clean(rx, labels) && !BelowBase(rx, p) ==> SlotFitsData(rx, p))
  {
    hide Exec, Labels, InvLabelled, RecvStep, Relabel, HeldAsItself, SlotIsStale, TakesItsOwnSlot, SlotFitsData;
    ReachableAsWritten(setup, acts);
    var sys, labels := Exec(setup, acts), Labels(setup, acts);
    ArrivalsFitAsWritten(setup, sys, labels, a);
    AheadInState(setup.file, sys.server.win.Curr(), sys.rx, labels, RcopyEvent(setup, a));
  }

  lemma AheadInState(file: seq<seq<byte>>, top: nat, rx: Receiver, labels: seq<nat>, e: Event)
    requires InvLabelled(file, top, rx, labels) && FittingEvent(file, top, rx, e) && HandsAhead(rx, e)
    requires forall k :: 0 <= k < |file| ==> file[k] != []
    ensures var p, next := e.recv.packet, RecvStep(AsWritten, rx, e).next;
            && next.ring.Shaped() && next.ring.winSize == rx.ring.winSize
            && (next.done <==> BelowBase(rx, p))
            && (HeldAsItself(next, Relabel(labels, rx, e), p) <==> !BelowBase(rx, p) && !SlotIsStale(rx, labels, p))
            && (TakesItsOwnSlot(rx, p, next) <==> !BelowBase(rx, p) && SlotFitsData(rx, p))
            && (Clean(rx, labels) && !BelowBase(rx, p) ==> SlotFitsData(rx, p))
  {
    hide Labelled, NoneBelow, Count, Clean;
    hide OnAhead, RecvStep, Relabel, HeldAsItself, SlotIsStale, TakesItsOwnSlot, SlotFitsData, BelowBase;
    CallKinds(AsWritten, rx, e);
    AheadTakesSlotIff(file, top, rx, labels, e.recv.packet);
    AheadIsHeldIff(file, top, rx, labels, e);
    CleanSlotFitsData(file, top, rx, labels, e.recv.packet);
  }

  lemma AheadTakesSlotIff(file: seq<seq<byte>>, top: nat, rx: Receiver, labels: seq<nat>, p: Packet)
    requires InvLabelled(file, top, rx, labels) && !rx.done && p.payload != []
    requires rx.expectedSeqNum < p.seqNum < rx.expectedSeqNum + rx.ring.winSize && p.seqNum < top
    ensures var next := OnAhead(AsWritten, rx, p).next;
            && (next.done <==> BelowBase(rx, p))
            && (TakesItsOwnSlot(rx, p, next) <==>
                  !BelowBase(rx, p) && SlotFitsData(rx, p))
  {
    hide Labelled, NoneBelow, Count, OnAhead;
    OpenAsWritten(file, top, rx, labels);
    AheadAsWritten(rx, p);
    LapInjective(rx.expectedSeqNum, p.seqNum, rx.ring.winSize);
  }

  /** Without residue the slot of a packet at or above the base never holds other data. */
  lemma CleanSlotFitsData(file: seq<seq<byte>>, top: nat, rx: Receiver, labels: seq<nat>, p: Packet)
    requires InvLabelled(file, top, rx, labels) && !rx.done
    requires rx.expectedSeqNum < p.seqNum < rx.expectedSeqNum + rx.ring.winSize && p.seqNum < top
    requires p.payload == file[p.seqNum - 1]
    ensures Clean(rx, labels) && !BelowBase(rx, p) ==> SlotFitsData(rx, p)
  {
    if Clean(rx, labels) && !BelowBase(rx, p) && !At(rx.ring.cells, p.seqNum).written {
      CleanSlot(file, top, rx, labels, p.seqNum);
    }
  }

  lemma AheadIsHeldIff(file: seq<seq<byte>>, top: nat, rx: Receiver, labels: seq<nat>, e: Event)
    requires InvLabelled(file, top, rx, labels) && HandsAhead(rx, e) && e.recv.packet.payload != []
    requires e.recv.packet.seqNum < rx.expectedSeqNum + rx.ring.winSize && e.recv.packet.seqNum < top
    ensures var p, next := e.recv.packet, OnAhead(AsWritten, rx, e.recv.packet).next;
            && next.ring.Shaped() && next.ring.winSize == rx.ring.winSize
            && (HeldAsItself(next, Relabel(labels, rx, e), p) <==> !BelowBase(rx, p) && !SlotIsStale(rx, labels, p))
  {
    hide Labelled, NoneBelow, Count, OnAhead, Relabel, Clean;
    var p := e.recv.packet;
    OpenAsWritten(file, top, rx, labels);
    AheadAsWritten(rx, p);
    RelabelAhead(rx, labels, e);
    if !BelowBase(rx, p) && !At(rx.ring.cells, p.seqNum).written {
      OwnOrStale(file, top, rx, labels, p.seqNum);
    }
  }

  lemma CleanStepStaysNested(file: seq<seq<byte>>, top: nat, rx: Receiver, labels: seq<nat>, e: Event)
    requires InvLabelled(file, top, rx, labels) && Clean(rx, labels) && FittingEvent(file, top, rx, e)
    requires rx.expectedSeqNum <= top
    ensures RecvStep(AsWritten, rx, e).next.expectedSeqNum <= top
  {
    hide Labelled, NoneBelow, Count, RecvStep, Flatten, Drain;
    CallKinds(AsWritten, rx, e);
    if HandsExpected(rx, e) && rx.ring.NeedFlush() {
      CleanFlushIsStretch(file, top, rx, labels);
    }
  }

  /** Without residue the windows stay nested. */
  lemma {:induction false} CleanRunsAreNested(setup: Setup, acts: seq<Action>)
    requires SetupOk(setup) && setup.rule.AsWritten? && AlwaysClean(setup, acts)
    ensures AlwaysNested(setup, acts)
    decreases |acts|
  {
    if acts != [] {
      var init, a := acts[..|acts| - 1], acts[|acts| - 1];
      CleanRunsAreNested(setup, init);
      ReachableAsWritten(setup, init);
      var before, labels := Exec(setup, init), Labels(setup, init);
      if Enabled(setup, before, a) {
        if a.ServerTurn? {
          ServerTurnKeepsLink(setup, before, a);
        } else {
          ArrivalsFitAsWritten(setup, before, labels, a);
          CleanStepStaysNested(setup.file, before.server.win.Curr(), before.rx, labels, RcopyEvent(setup, a));
        }
      }
    }
  }

  // ----- the end

  /**
   As written, too, an EOF_ACK that ends the server comes from a receiver that has finished
   and carries its expected number; the output is the chunks below that number if and only
   if nothing was repaired.
   */
  lemma EofAckTellsTheOutputIff(setup: Setup, buffSize: nat, acts: seq<Action>, a: Action)
    requires SetupOk(setup) && setup.rule.AsWritten? && FullChunks(setup.file, buffSize)
    requires EofAckArrives(setup, Exec(setup, acts), a)
    ensures var sys, n := Exec(setup, acts), ServerEnv(setup, a).recv.packet.seqNum;
            && Act(setup, sys, a).server.state == State.Done && sys.rx.done
            && (1 <= n <= |setup.file| + 1 && sys.rx.ring.out == Flatten(setup.file[..n - 1])
                <==> NeverRepaired(setup.winSize, Calls(setup, acts)))
  {
    ReachableAsWritten(setup, acts);
    EofAckIsHonest(setup, Exec(setup, acts), a);
    AsWrittenDeliversIffNothingRepaired(setup, buffSize, acts);
  }
}
