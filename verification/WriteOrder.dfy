/**
 What the receiver as written puts into the file, told by the numbers of the packets:
 the output is the chunks of those numbers, and they come in order exactly as long as no
 flush runs on into a packet that the ring has passed.
 */
module WriteOrder {
  import opened Bytes
  import opened Ring
  import opened Buffer
  import opened Rcopy
  import opened Transfer
  import opened AsWrittenSystem

  /** The labels of the slots that a flush of `k` turns passes. */
  function RunLabels(r: PacketRing, labels: seq<nat>, k: nat): (nums: seq<nat>)
    requires r.Shaped() && |labels| == r.winSize
    ensures |nums| == k
  {
    seq(k, (j: nat) => labels[Slot(r.nextSeqNum + j, |labels|)])
  }

  /** The numbers of the packets written to the file in one call, in order. */
  function Writes(rx: Receiver, labels: seq<nat>, e: Event): seq<nat>
    requires rx.ring.Shaped() && |labels| == rx.ring.winSize
  {
    if !HandsExpected(rx, e) then []
    else if rx.ring.NeedFlush() then RunLabels(rx.ring, labels, Turns(rx.ring, rx.ring.winSize))
    else [rx.expectedSeqNum]
  }

  /** The numbers written to the file in a whole run, in order. */
  function WrittenNums(setup: Setup, acts: seq<Action>): seq<nat>
    requires setup.winSize > 0
  {
    if acts == [] then []
    else
      var init, a := acts[..|acts| - 1], acts[|acts| - 1];
      WrittenNums(setup, init) +
      if a.RcopyTurn? && Enabled(setup, Exec(setup, init), a)
      then Writes(Exec(setup, init).rx, Labels(setup, init), RcopyEvent(setup, a)) else []
  }

  // ----- the output

  predicate Numbers(file: seq<seq<byte>>, nums: seq<nat>) {
    forall n <- nums :: 1 <= n <= |file|
  }

  function Chunks(file: seq<seq<byte>>, nums: seq<nat>): (chunks: seq<seq<byte>>)
    requires Numbers(file, nums)
    ensures |chunks| == |nums|
  {
    seq(|nums|, i requires 0 <= i < |nums| => assert nums[i] in nums; file[nums[i] - 1])
  }

  lemma ChunksConcat(file: seq<seq<byte>>, a: seq<nat>, b: seq<nat>)
    requires Numbers(file, a) && Numbers(file, b)
    ensures Numbers(file, a + b)
    ensures Flatten(Chunks(file, a + b)) == Flatten(Chunks(file, a)) + Flatten(Chunks(file, b))
  {
    assert Chunks(file, a + b) == Chunks(file, a) + Chunks(file, b);
    FlattenConcat(Chunks(file, a), Chunks(file, b));
  }

  lemma AreChunks(file: seq<seq<byte>>, nums: seq<nat>, data: seq<seq<byte>>)
    requires |data| == |nums|
    requires forall j :: 0 <= j < |nums| ==> 1 <= nums[j] <= |file| && data[j] == file[nums[j] - 1]
    ensures Numbers(file, nums) && data == Chunks(file, nums)
  {
  }

  lemma RunDataIsChunks(file: seq<seq<byte>>, top: nat, rx: Receiver, labels: seq<nat>, k: nat)
    requires InvLabelled(file, top, rx, labels) && rx.ring.NeedFlush() && RunWithin(rx.ring, rx.ring.winSize, k)
    ensures Numbers(file, RunLabels(rx.ring, labels, k))
    ensures Waiting(rx.ring, k) == Chunks(file, RunLabels(rx.ring, labels, k))
  {
    hide Labelled, NoneBelow, Count, Flatten, Numbers, Chunks, Slot;
    var r, nums := rx.ring, RunLabels(rx.ring, labels, k);
    forall j | 0 <= j < k
      ensures 1 <= nums[j] <= |file| && Waiting(r, k)[j] == file[nums[j] - 1]
    {
      OwnOrStale(file, top, rx, labels, r.nextSeqNum + j);
    }
    AreChunks(file, nums, Waiting(r, k));
  }

  /** One call appends the chunks of the numbers it writes. */
  lemma CallWritesChunks(file: seq<seq<byte>>, top: nat, rx: Receiver, labels: seq<nat>, e: Event)
    requires InvLabelled(file, top, rx, labels) && FittingEvent(file, top, rx, e)
    ensures var nums := Writes(rx, labels, e);
            Numbers(file, nums)
            && RecvStep(AsWritten, rx, e).next.ring.out == rx.ring.out + Flatten(Chunks(file, nums))
  {
    if HandsExpected(rx, e) {
      if rx.ring.NeedFlush() {
        var r := rx.ring;
        TurnsAreRun(r, r.winSize);
        DrainWritesRun(r, r.winSize);
        RunDataIsChunks(file, top, rx, labels, Turns(r, r.winSize));
      } else {
        var chunk := file[rx.expectedSeqNum - 1];
        assert Chunks(file, [rx.expectedSeqNum]) == [] + [chunk];
        FlattenSnoc([], chunk);
      }
    } else {
      assert Chunks(file, []) == [];
    }
  }

  /** In every reachable state the output is the chunks of the numbers written. */
  lemma {:induction false} OutputIsWhatWasWritten(setup: Setup, acts: seq<Action>)
    requires SetupOk(setup) && setup.rule.AsWritten?
    ensures Numbers(setup.file, WrittenNums(setup, acts))
    ensures Exec(setup, acts).rx.ring.out == Flatten(Chunks(setup.file, WrittenNums(setup, acts)))
    decreases |acts|
  {
    if acts == [] {
      assert Chunks(setup.file, []) == [];
    } else {
      var init, a := acts[..|acts| - 1], acts[|acts| - 1];
      OutputIsWhatWasWritten(setup, init);
      ReachableAsWritten(setup, init);
      var before, labels := Exec(setup, init), Labels(setup, init);
      if a.RcopyTurn? && Enabled(setup, before, a) {
        ArrivalsFitAsWritten(setup, before, labels, a);
        CallWritesChunks(setup.file, before.server.win.Curr(), before.rx, labels, RcopyEvent(setup, a));
        ChunksConcat(setup.file, WrittenNums(setup, init), Writes(before.rx, labels, RcopyEvent(setup, a)));
      } else {
        assert WrittenNums(setup, acts) == WrittenNums(setup, init);
      }
    }
  }

  // ----- the order

  /** Every packet in the first `k` slots from the base waits under the number of its slot. */
  predicate OwnRun(r: PacketRing, labels: seq<nat>, k: nat)
    requires r.Shaped() && |labels| == r.winSize
  {
    forall s: nat :: r.nextSeqNum <= s < r.nextSeqNum + k ==> labels[Slot(s, |labels|)] == s
  }

  /** A slot is free somewhere from the base of the ring up to number `s`. */
  ghost predicate FreeBefore(r: PacketRing, s: nat)
    requires r.Shaped()
  {
    exists t: nat :: r.nextSeqNum <= t < s && At(r.cells, t).written
  }

  /** Before each packet of the lap that waits under a number below the base, a slot is free. */
  ghost predicate StopsBeforeStale(r: PacketRing, labels: seq<nat>)
    requires r.Shaped() && |labels| == r.winSize
  {
    forall s: nat ::
      r.nextSeqNum <= s < r.nextSeqNum + r.winSize
      && !At(r.cells, s).written && labels[Slot(s, |labels|)] < r.nextSeqNum ==>
        FreeBefore(r, s)
  }

  /** A run writes each packet under its own number exactly if a free slot stops it before any other. */
  lemma OwnRunIffStops(file: seq<seq<byte>>, top: nat, rx: Receiver, labels: seq<nat>, k: nat)
    requires InvLabelled(file, top, rx, labels) && rx.ring.NeedFlush() && MaximalRun(rx.ring, k)
    ensures OwnRun(rx.ring, labels, k) <==> StopsBeforeStale(rx.ring, labels)
  {
    hide Labelled, NoneBelow, Count;
    var r := rx.ring;
    forall s: nat | StopsBeforeStale(r, labels) && r.nextSeqNum <= s < r.nextSeqNum + k
      ensures labels[Slot(s, |labels|)] == s
    {
      OwnOrStale(file, top, rx, labels, s);
      assert !FreeBefore(r, s);
    }
    forall s: nat | OwnRun(r, labels, k) && r.nextSeqNum <= s < r.nextSeqNum + r.winSize
                    && !At(r.cells, s).written && labels[Slot(s, |labels|)] < r.nextSeqNum
      ensures FreeBefore(r, s)
    {
      assert At(r.cells, r.nextSeqNum + k).written;
    }
  }

  /** Then the flush appends the stretch of the file from the base to where it ends. */
  lemma FlushIsStretchIfItStops(file: seq<seq<byte>>, top: nat, rx: Receiver, labels: seq<nat>)
    requires InvLabelled(file, top, rx, labels) && rx.ring.NeedFlush() && StopsBeforeStale(rx.ring, labels)
    ensures var base, ring := rx.ring.nextSeqNum, FlushBuffer(AsWritten, rx.ring);
            && 1 <= base < ring.nextSeqNum <= top
            && ring.out == rx.ring.out + Flatten(file[base - 1..ring.nextSeqNum - 1])
  {
    hide Labelled, NoneBelow, Count, Flatten, FlushBuffer, Waiting, StopsBeforeStale, Slot;
    var r := rx.ring;
    var k := FlushAdvances(r);
    OwnRunIffStops(file, top, rx, labels, k);
    OwnOrStale(file, top, rx, labels, r.nextSeqNum + k - 1);
    forall s: nat | r.nextSeqNum <= s < r.nextSeqNum + k
      ensures At(r.cells, s).data == file[s - 1]
    {
      OwnOrStale(file, top, rx, labels, s);
    }
    OwnFlushIsStretch(file, top, r, k);
  }

  /** In a run, a number is that of its slot, or below the base; the first is the base. */
  lemma RunNumbers(file: seq<seq<byte>>, top: nat, rx: Receiver, labels: seq<nat>, k: nat)
    requires InvLabelled(file, top, rx, labels) && rx.ring.NeedFlush() && MaximalRun(rx.ring, k) && k > 0
    ensures var nums, base := RunLabels(rx.ring, labels, k), rx.ring.nextSeqNum;
            && nums[0] == base
            && forall j: nat :: j < k ==> nums[j] == base + j || nums[j] < base
  {
    hide Labelled, NoneBelow, Count;
    var nums := RunLabels(rx.ring, labels, k);
    forall j: nat | j < k
      ensures nums[j] == rx.ring.nextSeqNum + j || nums[j] < rx.ring.nextSeqNum
    {
      OwnOrStale(file, top, rx, labels, rx.ring.nextSeqNum + j);
    }
  }

  /** Such numbers are in order exactly if none is below the first. */
  lemma InOrderIffConsecutive(nums: seq<nat>, base: nat)
    requires nums != [] && nums[0] == base
    requires forall j: nat :: j < |nums| ==> nums[j] == base + j || nums[j] < base
    ensures Increasing(nums) <==> forall j: nat :: j < |nums| ==> nums[j] == base + j
  {
    if j: nat :| j < |nums| && nums[j] != base + j {
      assert nums[j] < nums[0];
    }
  }

  lemma OwnRunIffConsecutive(r: PacketRing, labels: seq<nat>, k: nat)
    requires r.Shaped() && |labels| == r.winSize
    ensures var nums := RunLabels(r, labels, k);
            OwnRun(r, labels, k) <==> forall j: nat :: j < k ==> nums[j] == r.nextSeqNum + j
  {
    hide Slot;
    var nums := RunLabels(r, labels, k);
    assert forall s: nat :: r.nextSeqNum <= s < r.nextSeqNum + k ==>
        nums[s - r.nextSeqNum] == labels[Slot(s, |labels|)];
  }

  /** The numbers of a run are in order exactly if each is its own; all are below where the run ends. */
  lemma RunInOrderIffOwn(file: seq<seq<byte>>, top: nat, rx: Receiver, labels: seq<nat>, k: nat)
    requires InvLabelled(file, top, rx, labels) && rx.ring.NeedFlush() && MaximalRun(rx.ring, k) && k > 0
    ensures var nums := RunLabels(rx.ring, labels, k);
            && nums[0] == rx.ring.nextSeqNum
            && (forall n <- nums :: n < rx.ring.nextSeqNum + k)
            && (Increasing(nums) <==> OwnRun(rx.ring, labels, k))
  {
    hide Labelled, NoneBelow, Count, RunWithin, OwnRun, Increasing;
    RunNumbers(file, top, rx, labels, k);
    InOrderIffConsecutive(RunLabels(rx.ring, labels, k), rx.ring.nextSeqNum);
    OwnRunIffConsecutive(rx.ring, labels, k);
  }

  lemma IncreasingConcat(a: seq<nat>, b: seq<nat>)
    requires b != [] && forall n <- a :: n < b[0]
    ensures Increasing(a + b) <==> Increasing(a) && Increasing(b)
  {
    var both := a + b;
    forall i, j | 0 <= i < j < |a| && Increasing(both)
      ensures a[i] < a[j]
    {
      assert both[i] < both[j];
    }
    forall i, j | 0 <= i < j < |b| && Increasing(both)
      ensures b[i] < b[j]
    {
      assert both[|a| + i] < both[|a| + j];
    }
    forall i, j | 0 <= i < j < |both| && Increasing(a) && Increasing(b)
      ensures both[i] < both[j]
    {
      assert i < |a| ==> a[i] in a;
      assert b[0] <= b[if j < |a| then 0 else j - |a|];
    }
  }

  /** If the call flushes, a free slot stops the run before any packet that the ring has passed. */
  ghost predicate FlushStops(rx: Receiver, labels: seq<nat>, e: Event)
    requires rx.ring.Shaped() && |labels| == rx.ring.winSize
  {
    HandsExpected(rx, e) && rx.ring.NeedFlush() ==> StopsBeforeStale(rx.ring, labels)
  }

  /** One call keeps the numbers written in order exactly if its flush, if any, stops in time. */
  lemma CallKeepsOrderIff(
      file: seq<seq<byte>>, top: nat, rx: Receiver, labels: seq<nat>, e: Event, nums: seq<nat>)
    requires InvLabelled(file, top, rx, labels) && FittingEvent(file, top, rx, e)
    requires forall n <- nums :: n < rx.expectedSeqNum
    ensures var after := nums + Writes(rx, labels, e);
            && (forall n <- after :: n < RecvStep(AsWritten, rx, e).next.expectedSeqNum)
            && (Increasing(after) <==> Increasing(nums) && FlushStops(rx, labels, e))
  {
    hide Labelled, NoneBelow, Count, StopsBeforeStale, OwnRun, RunLabels, Flatten;
    ProgressStep(rx, e);
    if HandsExpected(rx, e) {
      if rx.ring.NeedFlush() {
        var r := rx.ring;
        var k := Turns(r, r.winSize);
        TurnsAreRun(r, r.winSize);
        DrainWritesRun(r, r.winSize);
        RunInOrderIffOwn(file, top, rx, labels, k);
        OwnRunIffStops(file, top, rx, labels, k);
        IncreasingConcat(nums, RunLabels(r, labels, k));
      } else {
        IncreasingConcat(nums, [rx.expectedSeqNum]);
      }
    } else {
      assert nums + [] == nums;
    }
  }

  /** Every flush of the run stopped before any packet that the ring had passed. */
  ghost predicate FlushesStop(setup: Setup, acts: seq<Action>)
    requires setup.winSize > 0
    decreases |acts|
  {
    acts == [] ||
    var init, a := acts[..|acts| - 1], acts[|acts| - 1];
    && FlushesStop(setup, init)
    && (a.RcopyTurn? && Enabled(setup, Exec(setup, init), a) ==>
          FlushStops(Exec(setup, init).rx, Labels(setup, init), RcopyEvent(setup, a)))
  }

  /**
   Over a whole run of the program as written, the packets are written to the file in the
   order of their numbers, each at most once, if and only if at every flush a free slot
   stops the run before each packet that waits below the base.
   */
  lemma {:induction false} WrittenInOrderIff(setup: Setup, acts: seq<Action>)
    requires SetupOk(setup) && setup.rule.AsWritten?
    ensures Increasing(WrittenNums(setup, acts)) <==> FlushesStop(setup, acts)
    ensures forall n <- WrittenNums(setup, acts) :: n < Exec(setup, acts).rx.expectedSeqNum
    decreases |acts|
  {
    if acts != [] {
      var init, a := acts[..|acts| - 1], acts[|acts| - 1];
      WrittenInOrderIff(setup, init);
      ReachableAsWritten(setup, init);
      var before, labels := Exec(setup, init), Labels(setup, init);
      if a.RcopyTurn? && Enabled(setup, before, a) {
        ArrivalsFitAsWritten(setup, before, labels, a);
        CallKeepsOrderIff(setup.file, before.server.win.Curr(), before.rx, labels, RcopyEvent(setup, a),
                          WrittenNums(setup, init));
      } else {
        assert WrittenNums(setup, acts) == WrittenNums(setup, init);
      }
    }
  }

  /** Without residue everything is written in order; the converse does not hold. */
  lemma {:induction false} CleanRunsWriteInOrder(setup: Setup, acts: seq<Action>)
    requires SetupOk(setup) && setup.rule.AsWritten? && AlwaysClean(setup, acts)
    ensures FlushesStop(setup, acts)
    decreases |acts|
  {
    if acts != [] {
      var init, a := acts[..|acts| - 1], acts[|acts| - 1];
      CleanRunsWriteInOrder(setup, init);
      ReachableAsWritten(setup, init);
      var before, labels := Exec(setup, init), Labels(setup, init);
      if before.rx.ring.NeedFlush() {
        assert StopsBeforeStale(before.rx.ring, labels);
      }
    }
  }
}
