/**
 The receiver's ring of out-of-order packets of `buffer.c`. The rule by which the ring is
 driven is a parameter: `AsWritten` is the code; `Documented` is the receiving rule of the
 program's README, which keeps the base of the ring at the expected number and does not
 forget packets that wait behind a gap.
 */
module Buffer {
  import opened Bytes
  import opened Ring

  datatype Rule = AsWritten | Documented

  /** A slot: packet data not yet written to the file, or free (`written`). */
  datatype Cell = Cell(data: seq<byte>, written: bool)

  const FREE_CELL := Cell([], true)

  /** `storedPackets` is what the code counts, not always the number of packets in the ring. */
  datatype PacketRing = PacketRing(
    winSize: u32, cells: seq<Cell>, nextSeqNum: u32, storedPackets: int, out: seq<byte>)
  {
    predicate Shaped() {
      winSize > 0 && |cells| == winSize
    }

    function Set(seqNum: nat, cell: Cell): (r: PacketRing)
      requires Shaped()
      ensures r.Shaped()
    {
      this.(cells := cells[Slot(seqNum, winSize) := cell])
    }

    /** `bufferOpen`: the comparison is unsigned, so a negative count would read as full. */
    predicate Open() {
      0 <= storedPackets < winSize
    }

    predicate NeedFlush() {
      storedPackets > 0
    }
  }

  /** The slot of a sequence number. */
  function At(cells: seq<Cell>, seqNum: nat): Cell
    requires cells != []
  {
    cells[Slot(seqNum, |cells|)]
  }

  function InitRing(winSize: u32): PacketRing {
    PacketRing(winSize, seq(winSize, _ => FREE_CELL), 1, 0, [])
  }

  /** How many packets wait in the ring. */
  function Count(cells: seq<Cell>): nat {
    if cells == [] then 0
    else Count(cells[..|cells| - 1]) + if cells[|cells| - 1].written then 0 else 1
  }

  lemma {:induction false} CountUpdate(cells: seq<Cell>, i: nat, cell: Cell)
    requires i < |cells|
    ensures Count(cells[i := cell]) + (if cells[i].written then 0 else 1)
         == Count(cells) + (if cell.written then 0 else 1)
  {
    var init := cells[..|cells| - 1];
    if i < |cells| - 1 {
      CountUpdate(init, i, cell);
      assert cells[i := cell][..|cells| - 1] == init[i := cell];
    } else {
      assert cells[i := cell][..|cells| - 1] == init;
    }
  }

  lemma {:induction false} CountBound(cells: seq<Cell>)
    ensures Count(cells) <= |cells|
    ensures (exists i :: 0 <= i < |cells| && cells[i].written) ==> Count(cells) < |cells|
    ensures Count(cells) == 0 <==> forall i :: 0 <= i < |cells| ==> cells[i].written
  {
    if cells != [] {
      CountBound(cells[..|cells| - 1]);
      assert forall i :: 0 <= i < |cells| - 1 ==> cells[..|cells| - 1][i] == cells[i];
    }
  }

  // ----- addPacket

  /** The ring after `addPacket`, and its result. */
  function Store(rule: Rule, r: PacketRing, data: seq<byte>, seqNum: u32): (PacketRing, int)
    requires r.Shaped()
  {
    if data == [] || seqNum < 1 then (r, -1)
    else
      var based := if rule.AsWritten? && r.storedPackets == 0 then r.(nextSeqNum := seqNum) else r;
      if seqNum < based.nextSeqNum || seqNum >= Add32(based.nextSeqNum, based.winSize) then (based, -1)
      else if !At(based.cells, seqNum).written then (based, 0)
      else (based.Set(seqNum, Cell(data, false)).(storedPackets := r.storedPackets + 1), 0)
  }

  // ----- flushBuffer

  /** Write out the packet at the base and advance. */
  function WriteNext(r: PacketRing): PacketRing
    requires r.Shaped()
  {
    r.Set(r.nextSeqNum, FREE_CELL).(
      out := r.out + At(r.cells, r.nextSeqNum).data,
      storedPackets := r.storedPackets - 1,
      nextSeqNum := Add32(r.nextSeqNum, 1))
  }

  /** At most `n` turns of the loop in `flushBuffer`, which stops at the first free slot. */
  function Drain(r: PacketRing, n: nat): (d: PacketRing)
    requires r.Shaped()
    ensures d.Shaped() && d.winSize == r.winSize
    decreases n
  {
    if n == 0 || At(r.cells, r.nextSeqNum).written then r else Drain(WriteNext(r), n - 1)
  }

  function FlushBuffer(rule: Rule, r: PacketRing): PacketRing
    requires r.Shaped()
  {
    var drained := Drain(r, r.winSize);
    if rule.AsWritten? then drained.(storedPackets := 0) else drained
  }

  /** The data waiting under `k` consecutive numbers from the base. */
  function Waiting(r: PacketRing, k: nat): seq<seq<byte>>
    requires r.Shaped()
  {
    seq(k, (j: nat) => At(r.cells, r.nextSeqNum + j).data)
  }

  /** Of `n` numbers from the base, exactly the first `k` wait in the ring without a gap. */
  predicate RunWithin(r: PacketRing, n: nat, k: nat)
    requires r.Shaped()
  {
    && k <= n
    && (forall s: nat :: r.nextSeqNum <= s < r.nextSeqNum + k ==> !At(r.cells, s).written)
    && (k < n ==> At(r.cells, r.nextSeqNum + k).written)
  }

  /** The longest run within one lap. */
  predicate MaximalRun(r: PacketRing, k: nat)
    requires r.Shaped()
  {
    RunWithin(r, r.winSize, k)
  }

  /** `d` is `r` with the first `k` waiting packets written out, and nothing else changed. */
  predicate WroteRun(r: PacketRing, k: nat, d: PacketRing)
    requires r.Shaped() && d.Shaped() && d.winSize == r.winSize
  {
    && d.out == r.out + Flatten(Waiting(r, k))
    && d.nextSeqNum == r.nextSeqNum + k
    && (forall s: nat :: r.nextSeqNum <= s < r.nextSeqNum + k ==> At(d.cells, s) == FREE_CELL)
    && (forall s: nat :: r.nextSeqNum + k <= s < r.nextSeqNum + r.winSize ==> At(d.cells, s) == At(r.cells, s))
  }

  /** Writing out one packet frees its slot and leaves the rest of the lap alone. */
  lemma WriteNextFrame(r: PacketRing)
    requires r.Shaped() && r.nextSeqNum + 1 < TWO_32
    ensures var once, base := WriteNext(r), r.nextSeqNum;
            && At(once.cells, base) == At(once.cells, base + r.winSize) == FREE_CELL
            && once.nextSeqNum == base + 1 && once.Shaped() && once.winSize == r.winSize
            && forall s: nat :: base < s < base + r.winSize ==> At(once.cells, s) == At(r.cells, s)
  {
    LapInjective(r.nextSeqNum, r.nextSeqNum, r.winSize);
    SlotAfterLap(r.nextSeqNum, r.winSize);
  }

  /** What waits is the packet at the base, and then what waits once that is written out. */
  lemma WaitingStep(r: PacketRing, k: nat)
    requires r.Shaped() && k < r.winSize && r.nextSeqNum + 1 < TWO_32
    ensures r.out + Flatten(Waiting(r, k + 1)) == WriteNext(r).out + Flatten(Waiting(WriteNext(r), k))
  {
    hide Flatten, Slot;
    var once, first := WriteNext(r), At(r.cells, r.nextSeqNum).data;
    WriteNextFrame(r);
    assert Waiting(r, k + 1) == [first] + Waiting(once, k);
    FlattenCons(first, Waiting(once, k));
    assert r.out + (first + Flatten(Waiting(once, k))) == r.out + first + Flatten(Waiting(once, k));
  }

  /** One packet written out, then a run of `k`: together a run of `k + 1`. */
  lemma WroteRunStep(r: PacketRing, k: nat, d: PacketRing)
    requires r.Shaped() && d.Shaped() && d.winSize == r.winSize
    requires k < r.winSize && r.nextSeqNum + 1 < TWO_32
    requires WroteRun(WriteNext(r), k, d)
    ensures WroteRun(r, k + 1, d)
  {
    hide WriteNext, Flatten, Waiting, Slot;
    var once, base := WriteNext(r), r.nextSeqNum;
    WriteNextFrame(r);
    WaitingStep(r, k);
    SlotAfterLap(base, r.winSize);
    assert At(d.cells, base + r.winSize) == At(once.cells, base + r.winSize);
    assert At(d.cells, base) == FREE_CELL;
  }

  lemma RunWithinStep(r: PacketRing, n: nat, k: nat)
    requires r.Shaped() && n < r.winSize && r.nextSeqNum + 1 < TWO_32
    requires !At(r.cells, r.nextSeqNum).written && RunWithin(WriteNext(r), n, k)
    ensures RunWithin(r, n + 1, k + 1)
  {
    WriteNextFrame(r);
  }

  /** How many turns the loop takes. */
  function Turns(r: PacketRing, n: nat): (k: nat)
    requires r.Shaped()
    ensures k <= n
    decreases n
  {
    if n == 0 || At(r.cells, r.nextSeqNum).written then 0 else 1 + Turns(WriteNext(r), n - 1)
  }

  lemma {:induction false} TurnsAreRun(r: PacketRing, n: nat)
    requires r.Shaped() && n <= r.winSize && r.nextSeqNum + n < TWO_32
    ensures RunWithin(r, n, Turns(r, n))
    decreases n
  {
    if n > 0 && !At(r.cells, r.nextSeqNum).written {
      TurnsAreRun(WriteNext(r), n - 1);
      RunWithinStep(r, n - 1, Turns(WriteNext(r), n - 1));
    }
  }

  lemma {:induction false} DrainWritesRun(r: PacketRing, n: nat)
    requires r.Shaped() && n <= r.winSize && r.nextSeqNum + n < TWO_32
    ensures WroteRun(r, Turns(r, n), Drain(r, n))
    decreases n
  {
    if n > 0 && !At(r.cells, r.nextSeqNum).written {
      DrainWritesRun(WriteNext(r), n - 1);
      WroteRunStep(r, Turns(WriteNext(r), n - 1), Drain(r, n));
    } else {
      assert Waiting(r, 0) == [];
    }
  }

  lemma {:induction false} DrainCounts(r: PacketRing, n: nat)
    requires r.Shaped()
    ensures Drain(r, n).storedPackets == r.storedPackets - Turns(r, n)
    ensures Count(Drain(r, n).cells) == Count(r.cells) - Turns(r, n)
    decreases n
  {
    if n > 0 && !At(r.cells, r.nextSeqNum).written {
      DrainCounts(WriteNext(r), n - 1);
      CountUpdate(r.cells, Slot(r.nextSeqNum, r.winSize), FREE_CELL);
    }
  }

  /** Wherever the base is, draining frees some slots and leaves the others alone. */
  lemma {:induction false} DrainFrees(r: PacketRing, n: nat)
    requires r.Shaped()
    ensures var cells := Drain(r, n).cells;
            |cells| == |r.cells| &&
            forall i :: 0 <= i < |cells| ==> cells[i] == r.cells[i] || cells[i] == FREE_CELL
    decreases n
  {
    if n > 0 && !At(r.cells, r.nextSeqNum).written {
      DrainFrees(WriteNext(r), n - 1);
    }
  }

  /**
   `flushBuffer` appends to the file, in order, exactly the maximal run of waiting packets
   from the base, once round the ring at most; it frees those slots and no others, and
   advances the base past the run.
   */
  lemma FlushWritesMaximalRun(rule: Rule, r: PacketRing) returns (k: nat)
    requires r.Shaped() && r.nextSeqNum + r.winSize < TWO_32
    ensures MaximalRun(r, k) && WroteRun(r, k, FlushBuffer(rule, r))
    ensures Count(FlushBuffer(rule, r).cells) == Count(r.cells) - k
  {
    k := Turns(r, r.winSize);
    TurnsAreRun(r, r.winSize);
    DrainWritesRun(r, r.winSize);
    DrainCounts(r, r.winSize);
  }

  /**
   After an as-written flush the count of zero is right exactly when no packet waited
   behind a gap, that is, when the run was everything in the ring.
   */
  lemma FlushCountIsRightWithoutGap(r: PacketRing) returns (k: nat)
    requires r.Shaped() && r.nextSeqNum + r.winSize < TWO_32
    ensures MaximalRun(r, k)
    ensures var f := FlushBuffer(AsWritten, r);
            f.storedPackets == Count(f.cells) <==> Count(r.cells) == k
    ensures Count(r.cells) == k <==>
              forall i :: 0 <= i < r.winSize ==> FlushBuffer(AsWritten, r).cells[i].written
  {
    k := FlushWritesMaximalRun(AsWritten, r);
    CountBound(FlushBuffer(AsWritten, r).cells);
  }

  // ----- the global packet buffer

  class PacketBuffer {
    const winSize: u32
    const buffer: array<Cell>
    var nextSeqNum: u32
    var storedPackets: int
    var outFile: seq<byte>

    ghost function View(): PacketRing
      reads this, buffer
    {
      PacketRing(winSize, buffer[..], nextSeqNum, storedPackets, outFile)
    }

    ghost predicate Valid()
      reads this, buffer
    {
      View().Shaped()
    }

    /** `initPacketBuffer`. */
    constructor (winSize: u32)
      requires winSize > 0
      ensures Valid() && fresh(buffer) && View() == InitRing(winSize)
    {
      this.winSize := winSize;
      buffer := new Cell[winSize](_ => FREE_CELL);
      nextSeqNum, storedPackets, outFile := 1, 0, [];
      new;
      assert buffer[..] == InitRing(winSize).cells;
    }

    method BufferOpen() returns (open: bool)
      requires Valid()
      ensures open <==> View().Open()
    {
      open := 0 <= storedPackets < winSize;
    }

    method NeedFlush() returns (need: bool)
      requires Valid()
      ensures need <==> View().NeedFlush()
    {
      need := storedPackets > 0;
    }

    method AddPacket(packet: seq<byte>, seqNum: u32) returns (r: int)
      requires Valid()
      modifies this, buffer
      ensures Valid() && (View(), r) == Store(AsWritten, old(View()), packet, seqNum)
    {
      if |packet| <= 0 || seqNum < 1 {
        return -1;
      }
      if storedPackets == 0 {
        nextSeqNum := seqNum;
      }
      if seqNum < nextSeqNum || seqNum >= Add32(nextSeqNum, winSize) {
        return -1;
      }
      var idx := Slot(seqNum, winSize);
      if !buffer[idx].written {
        return 0;
      }
      buffer[idx] := Cell(packet, false);
      storedPackets := storedPackets + 1;
      r := 0;
    }

    method Flush() returns (totBytesWritten: nat)
      requires Valid()
      modifies this, buffer
      ensures Valid() && View() == FlushBuffer(AsWritten, old(View()))
      ensures totBytesWritten == |outFile| - |old(outFile)|
    {
      totBytesWritten := 0;
      var i := 0;
      while i < winSize
        invariant 0 <= i <= winSize && Valid()
        invariant Drain(View(), winSize - i) == Drain(old(View()), winSize)
        invariant totBytesWritten == |outFile| - |old(outFile)|
      {
        var idx := Slot(nextSeqNum, winSize);
        var pkt := buffer[idx];
        if pkt.written {
          break;
        }
        ghost var before := View();
        outFile := outFile + pkt.data;
        totBytesWritten := totBytesWritten + |pkt.data|;
        buffer[idx] := FREE_CELL;
        storedPackets := storedPackets - 1;
        nextSeqNum := Add32(nextSeqNum, 1);
        assert View() == WriteNext(before);
        i := i + 1;
      }
      storedPackets := 0;
    }
  }
}
