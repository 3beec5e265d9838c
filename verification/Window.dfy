/**
 The sender's sliding window of `window.c`: a ring of panes indexed by
 `seqNum % winSize`, proved to behave as a slice [lower, curr) of an unbounded log.
 */
module Window {
  import opened Bytes
  import opened Ring

  // ----- the window as a log

  /** One packet ever added, and whether it has been marked acknowledged. */
  datatype Entry = Entry(data: seq<byte>, ack: bool)

  /** Entry k of the log belongs to sequence number k + 1. */
  datatype WinLog = WinLog(winSize: nat, lower: nat, log: seq<Entry>) {
    function Curr(): nat { |log| + 1 }

    predicate Valid() {
      winSize > 0 && 1 <= lower <= Curr() <= lower + winSize
    }

    predicate Open() { Curr() < lower + winSize }

    predicate InSlice(seqNum: nat) { 1 <= lower <= seqNum < Curr() }

    function At(seqNum: nat): Entry
      requires 1 <= seqNum < Curr()
    {
      log[seqNum - 1]
    }

    predicate Unacked(seqNum: nat) {
      InSlice(seqNum) && !At(seqNum).ack
    }

    function Add(data: seq<byte>): WinLog {
      this.(log := log + [Entry(data, false)])
    }

    function Mark(seqNum: nat): WinLog {
      if InSlice(seqNum) then this.(log := log[seqNum - 1 := At(seqNum).(ack := true)]) else this
    }

    function Slide(newLow: nat): WinLog {
      if lower <= newLow <= Curr() then this.(lower := newLow) else this
    }

    function Resend(seqNum: nat): Option<seq<byte>> {
      if Unacked(seqNum) then Some(At(seqNum).data) else None
    }
  }

  function Init(winSize: nat): WinLog {
    WinLog(winSize, 1, [])
  }

  // ----- runs of window operations

  datatype WinOp =
    | AddPane(data: seq<byte>, seqNum: nat)
    | MarkPaneAck(acked: nat)
    | SlideWindow(newLow: nat)

  function Do(w: WinLog, op: WinOp): WinLog {
    match op
    case AddPane(data, seqNum) =>
      if w.Open() && data != [] && seqNum == w.Curr() then w.Add(data) else w
    case MarkPaneAck(acked) => w.Mark(acked)
    case SlideWindow(newLow) => w.Slide(newLow)
  }

  function DoAll(w: WinLog, ops: seq<WinOp>): WinLog
    decreases |ops|
  {
    if ops == [] then w else DoAll(Do(w, ops[0]), ops[1..])
  }

  /** `w` may become `w'`: bounds never retreat, no packet is altered or un-acknowledged. */
  predicate Extends(w': WinLog, w: WinLog) {
    && w'.winSize == w.winSize && w.lower <= w'.lower && |w.log| <= |w'.log|
    && forall k :: 0 <= k < |w.log| ==> w'.log[k].data == w.log[k].data && (w.log[k].ack ==> w'.log[k].ack)
  }

  /**
   Whatever is called and in whatever order, the window stays a slice of at most winSize
   numbers, its bounds never retreat and what was added under a number never changes.
   */
  lemma {:induction false} RunKeepsWindow(w: WinLog, ops: seq<WinOp>)
    requires w.Valid()
    ensures DoAll(w, ops).Valid() && Extends(DoAll(w, ops), w)
    decreases |ops|
  {
    if ops != [] {
      RunKeepsWindow(Do(w, ops[0]), ops[1..]);
    }
  }

  /** No operation ever puts an empty packet into the window. */
  lemma {:induction false} NothingEmptyAdded(w: WinLog, ops: seq<WinOp>)
    requires forall e <- w.log :: e.data != []
    ensures forall e <- DoAll(w, ops).log :: e.data != []
    decreases |ops|
  {
    if ops != [] {
      NothingEmptyAdded(Do(w, ops[0]), ops[1..]);
    }
  }

  /**
   A packet resent at any later time is the one that was added under that number: it is
   resent exactly as long as the number has been neither slid past nor acknowledged.
   */
  lemma ResendAfterRun(w: WinLog, data: seq<byte>, ops: seq<WinOp>)
    requires w.Valid() && w.Open() && data != []
    ensures Extends(DoAll(w.Add(data), ops), w.Add(data))
    ensures var later := DoAll(w.Add(data), ops);
            later.Resend(w.Curr()) ==
            if later.lower <= w.Curr() && !later.At(w.Curr()).ack then Some(data) else None
  {
    RunKeepsWindow(w.Add(data), ops);
  }

  // ----- the ring of panes

  datatype Pane = Pane(packet: seq<byte>, seqNum: nat, ack: bool)

  const FREE_PANE := Pane([], 0, true)

  class Window {
    const winSize: nat
    const paneBuff: array<Pane>
    var lower: nat
    var curr: nat
    ghost var log: seq<Entry>

    ghost function View(): WinLog
      reads this
    {
      WinLog(winSize, lower, log)
    }

    /** The pane in the slot of every number of the lap [lower, lower + winSize). */
    ghost predicate Valid()
      reads this, paneBuff
    {
      && View().Valid() && curr == View().Curr()
      && paneBuff.Length == winSize
      && (forall s: nat :: lower <= s < curr ==>
            paneBuff[Slot(s, winSize)] == Pane(View().At(s).data, s, View().At(s).ack))
      && (forall s: nat :: curr <= s < lower + winSize ==> paneBuff[Slot(s, winSize)] == FREE_PANE)
    }

    /** `initWindow`. */
    constructor (winSize: nat)
      requires winSize > 0
      ensures Valid() && fresh(paneBuff) && View() == Init(winSize)
    {
      this.winSize := winSize;
      paneBuff := new Pane[winSize](_ => FREE_PANE);
      lower, curr, log := 1, 1, [];
    }

    /** `windowOpen`. The test of the current pane is redundant: only the span decides. */
    method WindowOpen() returns (open: bool)
      requires Valid()
      ensures open <==> curr - lower < winSize
      ensures open <==> View().Open()
    {
      open := curr - lower < winSize && paneBuff[Slot(curr, winSize)].ack;
    }

    /** `addPane`: accepted exactly when the window is open and the next number is added. */
    method AddPane(packet: seq<byte>, seqNum: nat) returns (r: int)
      requires Valid()
      modifies this, paneBuff
      ensures Valid() && View() == Do(old(View()), WinOp.AddPane(packet, seqNum))
      ensures r == if old(View().Open()) && packet != [] && seqNum == old(curr) then 0 else -1
    {
      var open := WindowOpen();
      if !open || |packet| <= 0 || seqNum < lower || seqNum >= lower + winSize {
        return -1;
      }
      if seqNum != curr {
        return -1;
      }
      var idx := Slot(curr, winSize);
      if !paneBuff[idx].ack {
        return -1;
      }
      LapInjective(lower, curr, winSize);
      curr := curr + 1;
      paneBuff[idx] := Pane(packet, seqNum, false);
      log := log + [Entry(packet, false)];
      r := 0;
    }

    /** `markPaneAck`: succeeds exactly for the numbers in the slice. */
    method MarkPaneAck(ackedSeqNum: nat) returns (r: int)
      requires Valid()
      modifies this, paneBuff
      ensures Valid() && View() == old(View()).Mark(ackedSeqNum)
      ensures r == if old(View()).InSlice(ackedSeqNum) then 0 else -1
    {
      if ackedSeqNum < lower || ackedSeqNum >= lower + winSize {
        return -1;
      }
      LapInjective(lower, ackedSeqNum, winSize);
      var idx := Slot(ackedSeqNum, winSize);
      if paneBuff[idx].seqNum == ackedSeqNum {
        paneBuff[idx] := paneBuff[idx].(ack := true);
        log := View().Mark(ackedSeqNum).log;
        return 0;
      }
      r := -1;
    }

    /** `checkPaneAck`: 1 or 0 for the numbers in the slice, -1 for all others. */
    method CheckPaneAck(seqNum: nat) returns (r: int)
      requires Valid()
      ensures r == if !View().InSlice(seqNum) then -1 else if View().At(seqNum).ack then 1 else 0
    {
      if seqNum < lower || seqNum >= lower + winSize {
        return -1;
      }
      var pane := paneBuff[Slot(seqNum, winSize)];
      if pane.seqNum == seqNum {
        return if pane.ack then 1 else 0;
      }
      r := -1;
    }

    /** `slideWindow`: frees the panes below `newLow`, acknowledged or not. */
    method SlideWindow(newLow: nat)
      requires Valid()
      modifies this, paneBuff
      ensures Valid() && View() == old(View()).Slide(newLow)
    {
      if newLow < lower || newLow > curr {
        return;
      }
      var seqNum := lower;
      while seqNum < newLow
        invariant lower <= seqNum <= newLow
        invariant unchanged(this)
        invariant forall s: nat :: lower <= s < seqNum ==> paneBuff[Slot(s, winSize)] == FREE_PANE
        invariant forall s: nat :: seqNum <= s < curr ==>
                    paneBuff[Slot(s, winSize)] == Pane(View().At(s).data, s, View().At(s).ack)
        invariant forall s: nat :: curr <= s < lower + winSize ==> paneBuff[Slot(s, winSize)] == FREE_PANE
      {
        LapInjective(lower, seqNum, winSize);
        paneBuff[Slot(seqNum, winSize)] := FREE_PANE;
        seqNum := seqNum + 1;
      }
      forall s: nat | lower + winSize <= s < newLow + winSize
        ensures paneBuff[Slot(s, winSize)] == FREE_PANE
      {
        SlotAfterLap(s - winSize, winSize);
      }
      lower := newLow;
    }

    /** `resendPane`: hands the packet to the sender exactly when the number is unacknowledged. */
    method ResendPane(seqNum: nat) returns (packet: Option<seq<byte>>)
      requires Valid()
      ensures packet == View().Resend(seqNum)
    {
      if seqNum < lower || seqNum > curr {
        return None;
      }
      if seqNum == lower + winSize {
        SlotAfterLap(lower, winSize);
      }
      var pane := paneBuff[Slot(seqNum, winSize)];
      if !pane.ack && pane.seqNum == seqNum {
        return Some(pane.packet);
      }
      packet := None;
    }
  }
}
