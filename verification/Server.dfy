/**
 The server's state machine of `server.c` for one established session. Everything the
 outside world decides in one turn of the loop (whether `select` reports a packet, what
 `recvBuff` makes of it, whether `read` fails) is an `Env`; the file is the sequence of
 chunks that `read` returns.
 */
module Server {
  import opened Bytes
  import opened Srej
  import opened Window

  const START_SEQ_NUM := 1
  const MAX_TRIES := 10

  datatype State =
    | SendPacket | HandleFeedback | Waiter | TimeoutResend
    | WaitEofAck | TimeoutEofResend | Done

  datatype Session = Session(
    state: State, nextToSend: u32, eofSent: bool, retryCnt: nat,
    read: nat,  // chunks read so far
    win: WinLog)

  datatype Env = Env(ready: bool, readOk: bool, recv: Received)

  /** One turn of the loop: the state it leaves and the packets it sends (at most one). */
  datatype Step = Step(next: Session, out: seq<Packet>)

  function Start(winSize: nat): Session {
    Session(State.SendPacket, START_SEQ_NUM, false, 0, 0, Init(winSize))
  }

  function Wrap(n: nat): u32 {
    n % TWO_32
  }

  // ----- the state functions

  function SendPacketStep(file: seq<seq<byte>>, s: Session, env: Env): Step {
    if !s.win.Open() then Step(s.(state := Waiter), [])
    else if !env.readOk then Step(s.(state := Done), [])
    else if s.read >= |file| then
      Step(s.(state := WaitEofAck, nextToSend := Add32(s.nextToSend, 1), eofSent := true),
           [Packet(END_OF_FILE, s.nextToSend, [0])])
    else
      var chunk := file[s.read];
      Step(s.(state := Waiter, nextToSend := Add32(s.nextToSend, 1), read := s.read + 1,
              win := Do(s.win, AddPane(chunk, s.nextToSend))),
           [Packet(DATA, s.nextToSend, chunk)])
  }

  function WaiterStep(s: Session, env: Env): Step {
    var next := if env.ready then HandleFeedback
                else if !s.win.Open() then TimeoutResend
                else State.SendPacket;
    Step(s.(state := next), [])
  }

  /** `resendPane`: one packet, or none when the number cannot be resent. */
  function Resent(win: WinLog, flag: byte, seqNum: u32): seq<Packet> {
    match win.Resend(seqNum)
    case None => []
    case Some(data) => [Packet(flag, seqNum, data)]
  }

  function HandleFeedbackStep(s: Session, env: Env): Step {
    match env.recv
    case CrcError => Step(s.(state := Waiter), [])
    case Got(p) =>
      if p.flag == ACK_RR then
        var win := s.win.Slide(Add32(p.seqNum, 1));
        Step(s.(state := State.SendPacket, win := win, nextToSend := Wrap(win.Curr())), [])
      else if p.flag == SREJ then
        Step(s.(state := State.SendPacket), Resent(s.win, SREJ_DATA, p.seqNum))
      else Step(s.(state := Done), [])
  }

  function TimeoutResendStep(s: Session): Step {
    if s.retryCnt >= MAX_TRIES then Step(s.(state := Done), [])
    else Step(s.(state := Waiter, retryCnt := s.retryCnt + 1),
              Resent(s.win, TIMEOUT_DATA, Wrap(s.win.lower)))
  }

  function WaitEofAckStep(s: Session, env: Env): Step {
    if !env.ready then Step(s.(state := TimeoutEofResend), [])
    else match env.recv
      case CrcError => Step(s, [])
      case Got(p) =>
        if p.flag == EOF_ACK then Step(s.(state := Done), [])
        else if p.flag == ACK_RR then
          Step(s.(state := State.SendPacket, win := s.win.Slide(Add32(p.seqNum, 1))), [])
        else if p.flag == SREJ then Step(s, Resent(s.win, SREJ_DATA, p.seqNum))
        else Step(s, [])
  }

  function TimeoutEofResendStep(s: Session): Step {
    if s.retryCnt >= MAX_TRIES then Step(s.(state := Done), [])
    else Step(s.(state := WaitEofAck, retryCnt := s.retryCnt + 1),
              [Packet(END_OF_FILE, Wrap(s.win.lower), [0])])
  }

  /** One turn of the `switch` in `clientControl`. */
  function Next(file: seq<seq<byte>>, s: Session, env: Env): Step {
    match s.state
    case SendPacket =>
      if s.eofSent then Step(s.(state := WaitEofAck), []) else SendPacketStep(file, s, env)
    case Waiter => WaiterStep(s, env)
    case HandleFeedback => HandleFeedbackStep(s, env)
    case TimeoutResend => TimeoutResendStep(s)
    case WaitEofAck => WaitEofAckStep(s, env)
    case TimeoutEofResend => TimeoutEofResendStep(s)
    case Done => Step(s, [])
  }

  /** A whole run: the last state and everything sent, in order. */
  function Run(file: seq<seq<byte>>, s: Session, envs: seq<Env>): Step {
    if envs == [] then Step(s, [])
    else
      var before := Run(file, s, envs[..|envs| - 1]);
      var last := Next(file, before.next, envs[|envs| - 1]);
      Step(last.next, before.out + last.out)
  }

  lemma RunSnoc(file: seq<seq<byte>>, s: Session, envs: seq<Env>, env: Env)
    ensures var before := Run(file, s, envs);
            var last := Next(file, before.next, env);
            Run(file, s, envs + [env]) == Step(last.next, before.out + last.out)
  {
    assert (envs + [env])[..|envs|] == envs;
  }

  // ----- the invariant of a session

  /** `read` never returns an empty chunk before the end, and no sequence number reaches 2^32. */
  ghost predicate FileOk(file: seq<seq<byte>>, winSize: nat) {
    && 0 < winSize && |file| + winSize + 1 < TWO_32
    && forall k :: 0 <= k < |file| ==> file[k] != []
  }

  predicate AfterEof(state: State) {
    state == State.SendPacket || state == WaitEofAck || state == TimeoutEofResend || state == Done
  }

  predicate BeforeEof(state: State) {
    state != WaitEofAck && state != TimeoutEofResend
  }

  ghost predicate Inv(file: seq<seq<byte>>, winSize: nat, s: Session) {
    && s.win.Valid() && s.win.winSize == winSize
    // the log is the file, as far as it has been read, and nothing is ever marked acknowledged
    && s.read == |s.win.log| <= |file|
    && (forall k :: 0 <= k < s.read ==> s.win.log[k] == Entry(file[k], false))
    // bookkeeping
    && s.nextToSend == s.win.Curr() + (if s.eofSent then 1 else 0)
    && (s.eofSent ==> s.read == |file| && AfterEof(s.state))
    && (!s.eofSent ==> BeforeEof(s.state))
    && s.retryCnt <= MAX_TRIES
    && (s.state == TimeoutResend ==> !s.win.Open())
  }

  /** Data packets carry the chunk their number stands for. */
  ghost predicate Genuine(file: seq<seq<byte>>, p: Packet) {
    && (p.flag == DATA || p.flag == SREJ_DATA || p.flag == TIMEOUT_DATA || p.flag == END_OF_FILE)
    && (p.flag != END_OF_FILE ==> 1 <= p.seqNum <= |file| && p.payload == file[p.seqNum - 1])
    && (p.flag == END_OF_FILE ==> p.payload == [0])
  }

  /** What every turn keeps: the invariant, the window's bounds and the truth of what is sent. */
  ghost predicate Keeps(file: seq<seq<byte>>, winSize: nat, s: Session, step: Step) {
    && Inv(file, winSize, step.next) && Extends(step.next.win, s.win)
    && (s.eofSent ==> step.next.eofSent)
    && |step.out| <= 1
    && forall p <- step.out ::
         Genuine(file, p) && (p.flag != END_OF_FILE ==> p.seqNum < step.next.win.Curr())
  }

  lemma SendPacketKeepsInv(file: seq<seq<byte>>, winSize: nat, s: Session, env: Env)
    requires FileOk(file, winSize) && Inv(file, winSize, s)
    requires s.state == State.SendPacket && !s.eofSent
    ensures Keeps(file, winSize, s, SendPacketStep(file, s, env))
  {
    if s.win.Open() && env.readOk && s.read < |file| {
      assert Do(s.win, AddPane(file[s.read], s.nextToSend)) == s.win.Add(file[s.read]);
    }
  }

  lemma FeedbackKeepsInv(file: seq<seq<byte>>, winSize: nat, s: Session, env: Env)
    requires FileOk(file, winSize) && Inv(file, winSize, s)
    requires s.state == HandleFeedback || s.state == WaitEofAck
    ensures Keeps(file, winSize, s, Next(file, s, env))
  {
    hide HandleFeedbackStep, WaitEofAckStep, Keeps;
    if s.state == HandleFeedback {
      HandlingKeepsInv(file, winSize, s, env);
    } else {
      WaitingKeepsInv(file, winSize, s, env);
    }
  }

  lemma HandlingKeepsInv(file: seq<seq<byte>>, winSize: nat, s: Session, env: Env)
    requires FileOk(file, winSize) && Inv(file, winSize, s) && s.state == HandleFeedback
    ensures Keeps(file, winSize, s, HandleFeedbackStep(s, env))
  {
    hide Resent, Add32;
    if env.recv.Got? {
      ResentIsGenuine(file, winSize, s, SREJ_DATA, env.recv.packet.seqNum);
    }
  }

  lemma WaitingKeepsInv(file: seq<seq<byte>>, winSize: nat, s: Session, env: Env)
    requires FileOk(file, winSize) && Inv(file, winSize, s) && s.state == WaitEofAck
    ensures Keeps(file, winSize, s, WaitEofAckStep(s, env))
  {
    hide Resent, Add32;
    if env.recv.Got? {
      ResentIsGenuine(file, winSize, s, SREJ_DATA, env.recv.packet.seqNum);
    }
  }

  lemma ResentIsGenuine(file: seq<seq<byte>>, winSize: nat, s: Session, flag: byte, seqNum: u32)
    requires FileOk(file, winSize) && Inv(file, winSize, s) && (flag == SREJ_DATA || flag == TIMEOUT_DATA)
    ensures |Resent(s.win, flag, seqNum)| <= 1
    ensures forall p <- Resent(s.win, flag, seqNum) :: Genuine(file, p) && p.seqNum < s.win.Curr() && p.flag == flag
    ensures s.win.InSlice(seqNum) ==> Resent(s.win, flag, seqNum) == [Packet(flag, seqNum, file[seqNum - 1])]
  {
  }

  /** Whatever arrives, every turn keeps the invariant; data packets are genuine and below curr. */
  lemma StepKeepsInv(file: seq<seq<byte>>, winSize: nat, s: Session, env: Env)
    requires FileOk(file, winSize) && Inv(file, winSize, s)
    ensures Keeps(file, winSize, s, Next(file, s, env))
  {
    if s.state == State.SendPacket && !s.eofSent {
      SendPacketKeepsInv(file, winSize, s, env);
    } else if s.state == HandleFeedback || s.state == WaitEofAck {
      FeedbackKeepsInv(file, winSize, s, env);
    } else {
      ResentIsGenuine(file, winSize, s, TIMEOUT_DATA, Wrap(s.win.lower));
    }
  }

  lemma {:induction false} RunKeepsInv(file: seq<seq<byte>>, winSize: nat, envs: seq<Env>)
    requires FileOk(file, winSize)
    ensures Inv(file, winSize, Run(file, Start(winSize), envs).next)
    decreases |envs|
  {
    if envs != [] {
      var before := Run(file, Start(winSize), envs[..|envs| - 1]);
      RunKeepsInv(file, winSize, envs[..|envs| - 1]);
      StepKeepsInv(file, winSize, before.next, envs[|envs| - 1]);
    }
  }

  /**
   Retransmission fidelity: against any feedback at all, every packet ever sent with a
   data flag and number k carries exactly the k-th chunk of the file.
   */
  lemma {:induction false} RetransmissionFidelity(file: seq<seq<byte>>, winSize: nat, envs: seq<Env>)
    requires FileOk(file, winSize)
    ensures forall p <- Run(file, Start(winSize), envs).out :: Genuine(file, p)
    decreases |envs|
  {
    if envs != [] {
      var init := envs[..|envs| - 1];
      RetransmissionFidelity(file, winSize, init);
      RunKeepsInv(file, winSize, init);
      StepKeepsInv(file, winSize, Run(file, Start(winSize), init).next, envs[|envs| - 1]);
    }
  }

  /** The window's bounds never retreat, whatever RRs arrive. */
  lemma {:induction false} LowerNeverDecreases(
      file: seq<seq<byte>>, winSize: nat, envs: seq<Env>, more: seq<Env>)
    requires FileOk(file, winSize)
    ensures Extends(Run(file, Start(winSize), envs + more).next.win, Run(file, Start(winSize), envs).next.win)
    decreases |more|
  {
    if more == [] {
      assert envs + more == envs;
    } else {
      var init := more[..|more| - 1];
      LowerNeverDecreases(file, winSize, envs, init);
      assert envs + more == (envs + init) + [more[|more| - 1]];
      RunSnoc(file, Start(winSize), envs + init, more[|more| - 1]);
      RunKeepsInv(file, winSize, envs + init);
      StepKeepsInv(file, winSize, Run(file, Start(winSize), envs + init).next, more[|more| - 1]);
    }
  }

  // ----- what a run has sent

  function OfFlag(out: seq<Packet>, flag: byte): seq<Packet> {
    if out == [] then []
    else
      var last := out[|out| - 1];
      OfFlag(out[..|out| - 1], flag) + if last.flag == flag then [last] else []
  }

  /** The first n chunks, each sent once, in order, under its number. */
  function FirstSends(file: seq<seq<byte>>, n: nat): seq<Packet>
    requires n <= |file| < TWO_32
  {
    if n == 0 then [] else FirstSends(file, n - 1) + [Packet(DATA, n, file[n - 1])]
  }

  lemma OfFlagStep(out: seq<Packet>, more: seq<Packet>, flag: byte)
    requires |more| <= 1
    ensures OfFlag(out + more, flag)
         == OfFlag(out, flag) + if more != [] && more[0].flag == flag then more else []
  {
    if more == [] {
      assert out + more == out;
    } else {
      assert (out + more)[..|out|] == out;
    }
  }

  /** The one packet of a turn, if it has this flag. */
  predicate Sends(out: seq<Packet>, flag: byte) {
    out != [] && out[0].flag == flag
  }

  lemma OfFlagOne(out: seq<Packet>, flag: byte)
    requires |out| <= 1
    ensures OfFlag(out, flag) == if Sends(out, flag) then out else []
  {
    if out != [] {
      assert out[..0] == [] && out == [out[0]];
    }
  }

  /** Which counters a turn moves, by what it sends. */
  lemma StepCounts(file: seq<seq<byte>>, winSize: nat, s: Session, env: Env)
    requires FileOk(file, winSize) && Inv(file, winSize, s)
    ensures var Step(next, out) := Next(file, s, env);
            && next.read == s.read + (if Sends(out, DATA) then 1 else 0)
            && (Sends(out, DATA) ==> s.read < |file| && out == [Packet(DATA, s.read + 1, file[s.read])])
            && next.retryCnt + (if next.eofSent then 1 else 0)
               == s.retryCnt + (if s.eofSent then 1 else 0)
                  + (if Sends(out, TIMEOUT_DATA) || Sends(out, END_OF_FILE) then 1 else 0)
            && (Sends(out, END_OF_FILE) ==> s.read == |file|)
  {
    if s.state == TimeoutResend {
      ResentIsGenuine(file, winSize, s, TIMEOUT_DATA, Wrap(s.win.lower));
    } else if (s.state == HandleFeedback || s.state == WaitEofAck) && env.recv.Got? {
      ResentIsGenuine(file, winSize, s, SREJ_DATA, env.recv.packet.seqNum);
    }
  }

  /** Whatever is sent before an END_OF_FILE includes the first transmission of every chunk. */
  predicate EofLast(file: seq<seq<byte>>, out: seq<Packet>)
    requires |file| < TWO_32
  {
    forall i :: 0 <= i < |out| && out[i].flag == END_OF_FILE ==>
      OfFlag(out[..i], DATA) == FirstSends(file, |file|)
  }

  lemma EofLastStep(file: seq<seq<byte>>, out: seq<Packet>, more: seq<Packet>)
    requires |file| < TWO_32 && EofLast(file, out) && |more| <= 1
    requires |OfFlag(more, END_OF_FILE)| > 0 ==> OfFlag(out, DATA) == FirstSends(file, |file|)
    ensures EofLast(file, out + more)
  {
    if more != [] {
      OfFlagOne(more, END_OF_FILE);
    }
    forall i | 0 <= i < |out + more| && (out + more)[i].flag == END_OF_FILE
      ensures OfFlag((out + more)[..i], DATA) == FirstSends(file, |file|)
    {
      if i < |out| {
        assert (out + more)[..i] == out[..i];
      } else {
        assert (out + more)[..i] == out;
      }
    }
  }

  /**
   First transmissions happen once per chunk and in file order; no END_OF_FILE precedes
   the first transmission of any chunk.
   */
  lemma {:induction false} SendsInOrder(file: seq<seq<byte>>, winSize: nat, envs: seq<Env>)
    requires FileOk(file, winSize)
    ensures var run := Run(file, Start(winSize), envs);
            && run.next.read <= |file|
            && OfFlag(run.out, DATA) == FirstSends(file, run.next.read)
            && EofLast(file, run.out)
    decreases |envs|
  {
    if envs != [] {
      var init, env := envs[..|envs| - 1], envs[|envs| - 1];
      var before := Run(file, Start(winSize), init);
      RunKeepsInv(file, winSize, init);
      SendsInOrder(file, winSize, init);
      StepKeepsInv(file, winSize, before.next, env);
      StepCounts(file, winSize, before.next, env);
      var out := Next(file, before.next, env).out;
      OfFlagStep(before.out, out, DATA);
      OfFlagOne(out, END_OF_FILE);
      EofLastStep(file, before.out, out);
    }
  }

  /**
   Timeouts resend at most MAX_TRIES packets in all, data and end-of-file together: the
   first END_OF_FILE apart, each of these packets has used up one of the tries.
   */
  lemma {:induction false} TimeoutsBounded(file: seq<seq<byte>>, winSize: nat, envs: seq<Env>)
    requires FileOk(file, winSize)
    ensures var run := Run(file, Start(winSize), envs);
            && |OfFlag(run.out, TIMEOUT_DATA)| + |OfFlag(run.out, END_OF_FILE)|
               == run.next.retryCnt + (if run.next.eofSent then 1 else 0)
            && run.next.retryCnt <= MAX_TRIES
    decreases |envs|
  {
    RunKeepsInv(file, winSize, envs);
    if envs != [] {
      var init, env := envs[..|envs| - 1], envs[|envs| - 1];
      var before := Run(file, Start(winSize), init);
      RunKeepsInv(file, winSize, init);
      TimeoutsBounded(file, winSize, init);
      StepCounts(file, winSize, before.next, env);
      StepKeepsInv(file, winSize, before.next, env);
      var step := Next(file, before.next, env);
      OfFlagStep(before.out, step.out, TIMEOUT_DATA);
      OfFlagStep(before.out, step.out, END_OF_FILE);
    }
  }

  lemma TimeoutStepResendsLowest(file: seq<seq<byte>>, winSize: nat, s: Session)
    requires FileOk(file, winSize) && Inv(file, winSize, s) && s.state == TimeoutResend
    ensures s.win.Curr() == s.win.lower + winSize && 1 <= s.win.lower <= |file|
    ensures TimeoutResendStep(s).out ==
            if s.retryCnt < MAX_TRIES then [Packet(TIMEOUT_DATA, s.win.lower, file[s.win.lower - 1])] else []
  {
    ResentIsGenuine(file, winSize, s, TIMEOUT_DATA, Wrap(s.win.lower));
  }

  /** A data timeout always finds the window full and resends the lowest outstanding chunk. */
  lemma TimeoutResendsLowest(file: seq<seq<byte>>, winSize: nat, envs: seq<Env>, env: Env)
    requires FileOk(file, winSize)
    requires Run(file, Start(winSize), envs).next.state == TimeoutResend
    ensures var s := Run(file, Start(winSize), envs).next;
            && s.win.Curr() == s.win.lower + winSize
            && 1 <= s.win.lower <= |file|
            && Next(file, s, env).out ==
               if s.retryCnt < MAX_TRIES then [Packet(TIMEOUT_DATA, s.win.lower, file[s.win.lower - 1])] else []
  {
    RunKeepsInv(file, winSize, envs);
    TimeoutStepResendsLowest(file, winSize, Run(file, Start(winSize), envs).next);
  }

  /**
   Bookkeeping after any run: `nextToSend` is the window's next number (one more once
   END_OF_FILE is out), so the `addPane` of a first transmission never fails; and the
   states that serve the data phase cannot be reached after END_OF_FILE.
   */
  lemma Bookkeeping(file: seq<seq<byte>>, winSize: nat, envs: seq<Env>)
    requires FileOk(file, winSize)
    ensures var s := Run(file, Start(winSize), envs).next;
            && s.nextToSend == s.win.Curr() + (if s.eofSent then 1 else 0)
            && s.win.lower <= s.win.Curr() <= s.win.lower + winSize
            && (s.eofSent ==> s.state != Waiter && s.state != HandleFeedback && s.state != TimeoutResend)
            && (s.state == State.SendPacket && !s.eofSent && s.win.Open() && s.read < |file| ==>
                  Do(s.win, AddPane(file[s.read], s.nextToSend)) == s.win.Add(file[s.read]))
  {
    RunKeepsInv(file, winSize, envs);
  }

  // ----- termination

  predicate Receives(s: Session, env: Env) {
    s.state == HandleFeedback || (s.state == WaitEofAck && env.ready)
  }

  /** The feedback that a run has taken from the network, in order. */
  function Heard(file: seq<seq<byte>>, s: Session, envs: seq<Env>): seq<Received> {
    if envs == [] then []
    else
      var init, env := envs[..|envs| - 1], envs[|envs| - 1];
      Heard(file, s, init) + if Receives(Run(file, s, init).next, env) then [env.recv] else []
  }

  /** How much that is. */
  function ReceivedIn(file: seq<seq<byte>>, s: Session, envs: seq<Env>): nat {
    |Heard(file, s, envs)|
  }

  lemma HeardSnoc(file: seq<seq<byte>>, s: Session, envs: seq<Env>, env: Env)
    ensures Heard(file, s, envs + [env])
         == Heard(file, s, envs) + if Receives(Run(file, s, envs).next, env) then [env.recv] else []
  {
    hide Run, Receives;
    assert (envs + [env])[..|envs|] == envs;
  }

  /** One more turn takes the first of the feedback that is left, if it takes any. */
  lemma HeardFirst(file: seq<seq<byte>>, s: Session, envs: seq<Env>, env: Env, left: seq<Received>)
    requires Receives(Run(file, s, envs).next, env) ==> left != [] && env.recv == left[0]
    ensures var after := if Receives(Run(file, s, envs).next, env) then left[1..] else left;
            Heard(file, s, envs + [env]) + after == Heard(file, s, envs) + left
  {
    hide Heard, Run, Receives;
    HeardSnoc(file, s, envs, env);
    if left != [] {
      MoveFirst(Heard(file, s, envs), left);
    }
  }

  function Rank(s: Session): nat {
    match s.state
    case Done => 0
    case HandleFeedback => 1
    case TimeoutResend => 1
    case TimeoutEofResend => 1
    case Waiter => 2
    case WaitEofAck => 2
    case SendPacket => if !s.eofSent && s.win.Open() then 1 else 3
  }

  /** Turns left, given how much feedback is still to come. */
  ghost function Measure(file: seq<seq<byte>>, winSize: nat, s: Session, feedbackLeft: nat): nat
    requires Inv(file, winSize, s)
  {
    2 * (|file| - s.read + if s.eofSent then 0 else 1)
    + 3 * feedbackLeft + 2 * (MAX_TRIES - s.retryCnt) + Rank(s)
  }

  lemma StepDecreases(file: seq<seq<byte>>, winSize: nat, s: Session, env: Env, feedbackLeft: nat)
    requires FileOk(file, winSize) && Inv(file, winSize, s) && s.state != Done
    ensures Inv(file, winSize, Next(file, s, env).next)
    ensures Measure(file, winSize, Next(file, s, env).next, feedbackLeft)
          < Measure(file, winSize, s, feedbackLeft + if Receives(s, env) then 1 else 0)
  {
    StepKeepsInv(file, winSize, s, env);
  }

  /** Feedback is only handled after `select` has reported some. */
  lemma FeedbackIsWaiting(file: seq<seq<byte>>, s: Session, env: Env)
    ensures Next(file, s, env).next.state == HandleFeedback ==> env.ready && s.state == Waiter
  {
  }

  function TurnBound(chunks: nat, feedback: nat): nat {
    2 * chunks + 3 * feedback + 2 * MAX_TRIES + 3
  }

  lemma {:induction false} TurnsUsed(file: seq<seq<byte>>, winSize: nat, envs: seq<Env>)
    requires FileOk(file, winSize)
    ensures var s := Run(file, Start(winSize), envs).next;
            && Inv(file, winSize, s)
            && (s.state == Done ||
                |envs| + Measure(file, winSize, s, 0)
                <= TurnBound(|file|, ReceivedIn(file, Start(winSize), envs)))
    decreases |envs|
  {
    RunKeepsInv(file, winSize, envs);
    if envs != [] {
      var init, env := envs[..|envs| - 1], envs[|envs| - 1];
      TurnsUsed(file, winSize, init);
      var before := Run(file, Start(winSize), init).next;
      if before.state != Done {
        StepDecreases(file, winSize, before, env, 0);
      }
    }
  }

  /** A session that receives finitely much feedback is over within a linear number of turns. */
  lemma SessionTerminates(file: seq<seq<byte>>, winSize: nat, envs: seq<Env>)
    requires FileOk(file, winSize)
    requires |envs| >= TurnBound(|file|, ReceivedIn(file, Start(winSize), envs))
    ensures Run(file, Start(winSize), envs).next.state == Done
  {
    TurnsUsed(file, winSize, envs);
  }

  // ----- why a session ends

  /** The other side ends it: EOF_ACK, or in the data phase anything but an RR or an SREJ. */
  predicate PeerEnds(s: Session, env: Env) {
    Receives(s, env) && env.recv.Got? &&
    var flag := env.recv.packet.flag;
    if s.state == WaitEofAck then flag == EOF_ACK else flag != ACK_RR && flag != SREJ
  }

  /** A chunk that is due cannot be read. */
  predicate ReadFails(s: Session, env: Env) {
    s.state == State.SendPacket && !s.eofSent && s.win.Open() && !env.readOk
  }

  /** A timeout finds all tries used. */
  predicate GivesUp(s: Session) {
    (s.state == TimeoutResend || s.state == TimeoutEofResend) && s.retryCnt == MAX_TRIES
  }

  /** The other side ended the session in some turn. */
  predicate PeerEnded(file: seq<seq<byte>>, s: Session, envs: seq<Env>) {
    envs != [] &&
    var init := envs[..|envs| - 1];
    PeerEnded(file, s, init) || PeerEnds(Run(file, s, init).next, envs[|envs| - 1])
  }

  /** Reading failed in some turn. */
  predicate ReadFailed(file: seq<seq<byte>>, s: Session, envs: seq<Env>) {
    envs != [] &&
    var init := envs[..|envs| - 1];
    ReadFailed(file, s, init) || ReadFails(Run(file, s, init).next, envs[|envs| - 1])
  }

  /** Some timeout found all tries used. */
  predicate GaveUp(file: seq<seq<byte>>, s: Session, envs: seq<Env>) {
    envs != [] &&
    var init := envs[..|envs| - 1];
    GaveUp(file, s, init) || GivesUp(Run(file, s, init).next)
  }

  lemma StepEndsIff(file: seq<seq<byte>>, winSize: nat, s: Session, env: Env)
    requires FileOk(file, winSize) && Inv(file, winSize, s) && s.state != Done
    ensures var next := Next(file, s, env).next;
            && (next.state == Done <==> PeerEnds(s, env) || ReadFails(s, env) || GivesUp(s))
            && (GivesUp(s) ==> next.retryCnt == MAX_TRIES)
  {
  }

  lemma StepStaysDone(file: seq<seq<byte>>, s: Session, env: Env)
    requires s.state == Done
    ensures Next(file, s, env).next == s && !PeerEnds(s, env) && !ReadFails(s, env) && !GivesUp(s)
  {
  }

  /**
   Over any run the session is over if and only if the other side ended it, reading failed,
   or a timeout found all tries used; in the last case every try has been spent. In
   particular a checksum error, a late SREJ or a closed window never ends it.
   */
  lemma {:induction false} DoneIffEnded(file: seq<seq<byte>>, winSize: nat, envs: seq<Env>)
    requires FileOk(file, winSize)
    ensures var s := Run(file, Start(winSize), envs).next;
            && (s.state == Done <==>
                  PeerEnded(file, Start(winSize), envs) || ReadFailed(file, Start(winSize), envs)
                  || GaveUp(file, Start(winSize), envs))
            && (GaveUp(file, Start(winSize), envs) ==> s.retryCnt == MAX_TRIES)
    decreases |envs|
  {
    if envs != [] {
      var init, env := envs[..|envs| - 1], envs[|envs| - 1];
      DoneIffEnded(file, winSize, init);
      RunKeepsInv(file, winSize, init);
      var s := Run(file, Start(winSize), init).next;
      if s.state == Done {
        StepStaysDone(file, s, env);
      } else {
        StepEndsIff(file, winSize, s, env);
      }
    }
  }

  /** Everything the run heard was damaged, an RR or an SREJ, and every read succeeded. */
  predicate OrdinaryFeedback(m: Received) {
    m.Got? ==> m.packet.flag == ACK_RR || m.packet.flag == SREJ
  }

  lemma {:induction false} OrdinaryEndsNothing(file: seq<seq<byte>>, s: Session, envs: seq<Env>)
    requires forall env <- envs :: env.readOk
    requires forall m <- Heard(file, s, envs) :: OrdinaryFeedback(m)
    ensures !PeerEnded(file, s, envs) && !ReadFailed(file, s, envs)
    decreases |envs|
  {
    if envs != [] {
      var init, env := envs[..|envs| - 1], envs[|envs| - 1];
      assert env in envs;
      assert Heard(file, s, envs) == Heard(file, s, init)
          + if Receives(Run(file, s, init).next, env) then [env.recv] else [];
      OrdinaryEndsNothing(file, s, init);
      if Receives(Run(file, s, init).next, env) {
        assert env.recv in Heard(file, s, envs);
      }
    }
  }

  /**
   Against RRs, SREJs and damaged packets, and with a file that can be read, the server
   only ever stops after all its tries: the timeouts have then repeated MAX_TRIES packets.
   */
  lemma StopsOnlyAfterAllTries(file: seq<seq<byte>>, winSize: nat, envs: seq<Env>)
    requires FileOk(file, winSize) && forall env <- envs :: env.readOk
    requires forall m <- Heard(file, Start(winSize), envs) :: OrdinaryFeedback(m)
    ensures var run := Run(file, Start(winSize), envs);
            run.next.state == Done ==>
              && run.next.retryCnt == MAX_TRIES
              && |OfFlag(run.out, TIMEOUT_DATA)| + |OfFlag(run.out, END_OF_FILE)|
                 == MAX_TRIES + (if run.next.eofSent then 1 else 0)
  {
    DoneIffEnded(file, winSize, envs);
    OrdinaryEndsNothing(file, Start(winSize), envs);
    TimeoutsBounded(file, winSize, envs);
  }

  /** What the timeouts repeat of the file: chunks at or below the lower bound. */
  lemma {:induction false} TimeoutsRepeatLow(file: seq<seq<byte>>, winSize: nat, envs: seq<Env>)
    requires FileOk(file, winSize)
    ensures var run := Run(file, Start(winSize), envs);
            forall p <- OfFlag(run.out, TIMEOUT_DATA) ::
              1 <= p.seqNum <= run.next.win.lower && p.seqNum <= |file|
              && p == Packet(TIMEOUT_DATA, p.seqNum, file[p.seqNum - 1])
    decreases |envs|
  {
    if envs != [] {
      var init, env := envs[..|envs| - 1], envs[|envs| - 1];
      TimeoutsRepeatLow(file, winSize, init);
      RunKeepsInv(file, winSize, init);
      var before := Run(file, Start(winSize), init);
      StepKeepsInv(file, winSize, before.next, env);
      OfFlagStep(before.out, Next(file, before.next, env).out, TIMEOUT_DATA);
      TimeoutTurnRepeatsLow(file, winSize, before.next, env);
    }
  }

  lemma TimeoutTurnRepeatsLow(file: seq<seq<byte>>, winSize: nat, s: Session, env: Env)
    requires FileOk(file, winSize) && Inv(file, winSize, s)
    ensures var out := Next(file, s, env).out;
            |out| <= 1 &&
            (Sends(out, TIMEOUT_DATA) ==>
               1 <= s.win.lower <= |file| && out == [Packet(TIMEOUT_DATA, s.win.lower, file[s.win.lower - 1])])
  {
    if s.state == TimeoutResend {
      TimeoutStepResendsLowest(file, winSize, s);
    } else if (s.state == HandleFeedback || s.state == WaitEofAck) && env.recv.Got? {
      ResentIsGenuine(file, winSize, s, SREJ_DATA, env.recv.packet.seqNum);
    }
  }

  lemma TimeoutFollowsSilence(file: seq<seq<byte>>, winSize: nat, s: Session, env: Env)
    requires FileOk(file, winSize) && Inv(file, winSize, s)
    ensures var state := Next(file, s, env).next.state;
            && (state == TimeoutResend ==> !env.ready && s.state == Waiter && !s.win.Open())
            && (state == TimeoutEofResend ==> !env.ready && s.state == WaitEofAck)
  {
    hide Resent;
  }

  /** A timeout is only reached by a poll that found nothing, in the data phase with the window full. */
  lemma TimeoutsFollowSilence(file: seq<seq<byte>>, winSize: nat, envs: seq<Env>)
    requires FileOk(file, winSize)
    ensures var s := Run(file, Start(winSize), envs).next;
            s.state == TimeoutResend || s.state == TimeoutEofResend ==>
              && envs != [] && !envs[|envs| - 1].ready
              && var before := Run(file, Start(winSize), envs[..|envs| - 1]).next;
                 if s.state == TimeoutResend then before.state == Waiter && !before.win.Open()
                 else before.state == WaitEofAck
  {
    if envs != [] {
      hide Next, Inv;
      var init, env := envs[..|envs| - 1], envs[|envs| - 1];
      RunKeepsInv(file, winSize, init);
      TimeoutFollowsSilence(file, winSize, Run(file, Start(winSize), init).next, env);
    }
  }

  /** The first END_OF_FILE is numbered behind the last chunk; the others repeat a lower bound. */
  predicate EofsNumbered(file: seq<seq<byte>>, eofs: seq<Packet>, lower: nat) {
    forall i :: 0 <= i < |eofs| ==>
      eofs[i].payload == [0] && if i == 0 then eofs[i].seqNum == |file| + 1 else 1 <= eofs[i].seqNum <= lower
  }

  lemma EofTurn(file: seq<seq<byte>>, winSize: nat, s: Session, env: Env)
    requires FileOk(file, winSize) && Inv(file, winSize, s)
    ensures var Step(next, out) := Next(file, s, env);
            && |out| <= 1 && (s.eofSent ==> next.eofSent) && s.win.lower <= next.win.lower
            && (Sends(out, END_OF_FILE) ==>
                  out == [Packet(END_OF_FILE, if s.eofSent then s.win.lower else |file| + 1, [0])])
            && (next.eofSent <==> s.eofSent || Sends(out, END_OF_FILE))
  {
    hide Resent;
    StepKeepsInv(file, winSize, s, env);
    if (s.state == HandleFeedback || s.state == WaitEofAck) && env.recv.Got? {
      ResentIsGenuine(file, winSize, s, SREJ_DATA, env.recv.packet.seqNum);
    }
    ResentIsGenuine(file, winSize, s, TIMEOUT_DATA, Wrap(s.win.lower));
  }

  /** Over any run END_OF_FILE goes out as soon as its flag is set, under these numbers. */
  lemma {:induction false} EofNumbers(file: seq<seq<byte>>, winSize: nat, envs: seq<Env>)
    requires FileOk(file, winSize)
    ensures var run := Run(file, Start(winSize), envs);
            && (run.next.eofSent <==> OfFlag(run.out, END_OF_FILE) != [])
            && EofsNumbered(file, OfFlag(run.out, END_OF_FILE), run.next.win.lower)
    decreases |envs|
  {
    hide Next;
    if envs != [] {
      var init, env := envs[..|envs| - 1], envs[|envs| - 1];
      EofNumbers(file, winSize, init);
      RunKeepsInv(file, winSize, init);
      var before := Run(file, Start(winSize), init);
      EofTurn(file, winSize, before.next, env);
      OfFlagStep(before.out, Next(file, before.next, env).out, END_OF_FILE);
    }
  }

  /**
   While it waits for the EOF_ACK, whatever else arrives but an RR leaves the server as it
   is; only an SREJ draws a packet, the chunk it names if that is in the window.
   */
  lemma {:induction false} WaitingServes(file: seq<seq<byte>>, winSize: nat, s: Session, envs: seq<Env>)
    requires FileOk(file, winSize) && Inv(file, winSize, s) && s.state == WaitEofAck
    requires forall env <- envs :: env.ready && (env.recv.Got? ==>
               env.recv.packet.flag != EOF_ACK && env.recv.packet.flag != ACK_RR)
    ensures Run(file, s, envs).next == s && |Run(file, s, envs).out| <= |envs|
    ensures forall p <- Run(file, s, envs).out :: p.flag == SREJ_DATA && s.win.InSlice(p.seqNum)
    decreases |envs|
  {
    if envs != [] {
      var init, env := envs[..|envs| - 1], envs[|envs| - 1];
      assert env in envs;
      WaitingServes(file, winSize, s, init);
      if env.recv.Got? {
        ResentIsGenuine(file, winSize, s, SREJ_DATA, env.recv.packet.seqNum);
      }
    }
  }

  // ----- corruption is loss

  /** The run without its damaged feedback, and without the polls that reported it. */
  function Undamaged(file: seq<seq<byte>>, s: Session, envs: seq<Env>): (kept: seq<Env>)
    ensures |kept| <= |envs|
    decreases |envs|
  {
    if envs == [] then []
    else
      var init, env := envs[..|envs| - 1], envs[|envs| - 1];
      var before := Run(file, s, init).next;
      if !(Receives(before, env) && env.recv.CrcError?) then Undamaged(file, s, init) + [env]
      else if before.state == HandleFeedback && init != [] then Undamaged(file, s, init[..|init| - 1])
      else Undamaged(file, s, init)
  }

  lemma UndamagedStep(file: seq<seq<byte>>, s: Session, envs: seq<Env>)
    requires envs != []
    ensures var init, env := envs[..|envs| - 1], envs[|envs| - 1];
            var before := Run(file, s, init).next;
            Undamaged(file, s, envs) ==
            if !(Receives(before, env) && env.recv.CrcError?) then Undamaged(file, s, init) + [env]
            else if before.state == HandleFeedback && init != [] then Undamaged(file, s, init[..|init| - 1])
            else Undamaged(file, s, init)
  {
    hide Run, Next, Receives;
  }

  /** A damaged packet leaves the session where it was before it was noticed. */
  lemma DamageChangesNothing(file: seq<seq<byte>>, s: Session, poll: Env, env: Env)
    requires Next(file, s, poll).next.state == HandleFeedback && env.recv.CrcError?
    ensures Next(file, s, poll).out == [] && Next(file, Next(file, s, poll).next, env) == Step(s, [])
  {
  }

  /** A damaged packet in the data phase: the run is what it was before the poll that reported it. */
  lemma DamagedAfterPoll(file: seq<seq<byte>>, s: Session, envs: seq<Env>)
    requires |envs| >= 2 && envs[|envs| - 1].recv.CrcError?
    requires Run(file, s, envs[..|envs| - 1]).next.state == HandleFeedback
    ensures Run(file, s, envs) == Run(file, s, envs[..|envs| - 1][..|envs| - 2])
  {
    hide Next;
    var init := envs[..|envs| - 1];
    var run := Run(file, s, init[..|envs| - 2]);
    DamageChangesNothing(file, run.next, init[|init| - 1], envs[|envs| - 1]);
    assert Run(file, s, init).out == run.out && Run(file, s, envs).out == run.out;
  }

  /** A damaged packet while the EOF_ACK is awaited: the run is what it was. */
  lemma DamagedWhileWaiting(file: seq<seq<byte>>, winSize: nat, envs: seq<Env>)
    requires envs != [] && envs[|envs| - 1].recv.CrcError?
    requires var before := Run(file, Start(winSize), envs[..|envs| - 1]).next;
             Receives(before, envs[|envs| - 1]) && !(before.state == HandleFeedback && |envs| > 1)
    ensures Run(file, Start(winSize), envs) == Run(file, Start(winSize), envs[..|envs| - 1])
  {
  }

  predicate SameRun(file: seq<seq<byte>>, s: Session, a: seq<Env>, b: seq<Env>) {
    Run(file, s, a) == Run(file, s, b)
  }

  lemma SameTurnKept(file: seq<seq<byte>>, s: Session, a: seq<Env>, envs: seq<Env>)
    requires envs != [] && SameRun(file, s, a, envs[..|envs| - 1])
    ensures SameRun(file, s, a + [envs[|envs| - 1]], envs)
  {
    hide Next;
    RunSnoc(file, s, a, envs[|envs| - 1]);
  }

  /**
   Whatever is damaged is as good as lost: with the damaged packets taken out, the run ends
   in the same state and has sent the same packets.
   */
  lemma {:induction false} CorruptionIsLoss(file: seq<seq<byte>>, winSize: nat, envs: seq<Env>)
    ensures SameRun(file, Start(winSize), Undamaged(file, Start(winSize), envs), envs)
    decreases |envs|
  {
    if envs != [] {
      hide Run, Receives, Undamaged;
      var init, env := envs[..|envs| - 1], envs[|envs| - 1];
      var before := Run(file, Start(winSize), init).next;
      UndamagedStep(file, Start(winSize), envs);
      if !(Receives(before, env) && env.recv.CrcError?) {
        CorruptionIsLoss(file, winSize, init);
        SameTurnKept(file, Start(winSize), Undamaged(file, Start(winSize), init), envs);
      } else if before.state == HandleFeedback && init != [] {
        CorruptionIsLoss(file, winSize, init[..|init| - 1]);
        DamagedAfterPoll(file, Start(winSize), envs);
      } else {
        CorruptionIsLoss(file, winSize, init);
        DamagedWhileWaiting(file, winSize, envs);
      }
    }
  }

  /** And indeed nothing damaged is left. */
  lemma {:induction false} NothingDamagedLeft(file: seq<seq<byte>>, winSize: nat, envs: seq<Env>)
    ensures CrcError !in Heard(file, Start(winSize), Undamaged(file, Start(winSize), envs))
    decreases |envs|
  {
    if envs != [] {
      hide Run, Next, Receives, Heard, Undamaged;
      UndamagedStep(file, Start(winSize), envs);
      var s0 := Start(winSize);
      var init, env := envs[..|envs| - 1], envs[|envs| - 1];
      NothingDamagedLeft(file, winSize, init);
      if !(Receives(Run(file, s0, init).next, env) && env.recv.CrcError?) {
        CorruptionIsLoss(file, winSize, init);
        HeardSnoc(file, s0, Undamaged(file, s0, init), env);
      } else if init != [] {
        NothingDamagedLeft(file, winSize, init[..|init| - 1]);
      }
    }
  }

  /** When nothing arrives, no feedback is handled. */
  lemma {:induction false} QuietHearsNothing(file: seq<seq<byte>>, winSize: nat, envs: seq<Env>)
    requires forall env <- envs :: !env.ready
    ensures Run(file, Start(winSize), envs).next.state != HandleFeedback
    ensures Heard(file, Start(winSize), envs) == []
    decreases |envs|
  {
    if envs != [] {
      var init, env := envs[..|envs| - 1], envs[|envs| - 1];
      QuietHearsNothing(file, winSize, init);
      assert env in envs;
      FeedbackIsWaiting(file, Run(file, Start(winSize), init).next, env);
    }
  }

  // ----- the loop itself

  /** The variables of `clientControl`, the window they work on and the packets sent so far. */
  class ServerSession {
    const file: seq<seq<byte>>
    const win: Window
    var read: nat
    var state: State
    var nextToSend: u32
    var eofSent: bool
    var retryCnt: nat
    var sent: seq<Packet>

    ghost function View(): Session
      reads this, win
    {
      Session(state, nextToSend, eofSent, retryCnt, read, win.View())
    }

    ghost predicate Valid()
      reads this, win, win.paneBuff
    {
      && FileOk(file, win.winSize) && win.Valid()
      && Inv(file, win.winSize, View())
    }

    /** After a state function has returned `retVal`: this turn of the machine was taken. */
    twostate predicate Took(env: Env, retVal: State)
      reads this, win, win.paneBuff
    {
      var step := Next(file, old(View()), env);
      && win.Valid()
      && View().(state := retVal) == step.next
      && sent == old(sent) + step.out
    }

    constructor (file: seq<seq<byte>>, winSize: nat)
      requires FileOk(file, winSize)
      ensures Valid() && fresh(win) && fresh(win.paneBuff)
      ensures this.file == file && win.winSize == winSize
      ensures View() == Start(winSize) && sent == []
    {
      this.file := file;
      win := new Window(winSize);
      read, state, nextToSend, eofSent, retryCnt, sent := 0, State.SendPacket, START_SEQ_NUM, false, 0, [];
    }

    method Send(flag: byte, seqNum: u32, payload: seq<byte>)
      modifies this`sent
      ensures sent == old(sent) + [Packet(flag, seqNum, payload)]
    {
      sent := sent + [Packet(flag, seqNum, payload)];
    }

    /** `resendPane` together with the `sendBuff` inside it. */
    method ResendPane(flag: byte, seqNum: u32)
      requires win.Valid()
      modifies this`sent
      ensures sent == old(sent) + Resent(win.View(), flag, seqNum)
    {
      var packet := win.ResendPane(seqNum);
      if packet.Some? {
        Send(flag, seqNum, packet.value);
      }
    }

    method SendPacket(env: Env) returns (retVal: State)
      requires Valid() && state == State.SendPacket && !eofSent
      modifies this`read, this`nextToSend, this`eofSent, this`sent, win, win.paneBuff
      ensures Took(env, retVal)
    {
      var open := win.WindowOpen();
      if !open {
        return Waiter;
      }
      if !env.readOk {
        return Done;
      }
      if read >= |file| {
        Send(END_OF_FILE, nextToSend, [0]);
        nextToSend := Add32(nextToSend, 1);
        eofSent := true;
        return WaitEofAck;
      }
      var dataBuff := file[read];
      read := read + 1;
      var added := win.AddPane(dataBuff, nextToSend);
      Send(DATA, nextToSend, dataBuff);
      nextToSend := Add32(nextToSend, 1);
      retVal := Waiter;
    }

    method Waiting(env: Env) returns (retVal: State)
      requires Valid() && state == Waiter
      ensures Took(env, retVal)
    {
      var open := win.WindowOpen();
      retVal := if env.ready then HandleFeedback else if !open then TimeoutResend else State.SendPacket;
    }

    method HandlingFeedback(env: Env) returns (retVal: State)
      requires Valid() && state == HandleFeedback
      modifies this`nextToSend, this`sent, win, win.paneBuff
      ensures Took(env, retVal)
    {
      match env.recv
      case CrcError => return Waiter;
      case Got(p) =>
        if p.flag == ACK_RR {
          win.SlideWindow(Add32(p.seqNum, 1));
          nextToSend := Wrap(win.curr);
        } else if p.flag == SREJ {
          ResendPane(SREJ_DATA, p.seqNum);
        } else {
          return Done;
        }
        retVal := State.SendPacket;
    }

    method ResendingOnTimeout(env: Env) returns (retVal: State)
      requires Valid() && state == TimeoutResend
      modifies this`retryCnt, this`sent
      ensures Took(env, retVal)
    {
      if retryCnt >= MAX_TRIES {
        return Done;
      }
      ResendPane(TIMEOUT_DATA, Wrap(win.lower));
      retryCnt := retryCnt + 1;
      retVal := Waiter;
    }

    method WaitingForEofAck(env: Env) returns (retVal: State)
      requires Valid() && state == WaitEofAck
      modifies this`sent, win, win.paneBuff
      ensures Took(env, retVal)
    {
      if !env.ready {
        return TimeoutEofResend;
      }
      retVal := WaitEofAck;
      if env.recv.Got? {
        var p := env.recv.packet;
        if p.flag == EOF_ACK {
          retVal := Done;
        } else if p.flag == ACK_RR {
          win.SlideWindow(Add32(p.seqNum, 1));
          retVal := State.SendPacket;
        } else if p.flag == SREJ {
          ResendPane(SREJ_DATA, p.seqNum);
        }
      }
    }

    method ResendingEof(env: Env) returns (retVal: State)
      requires Valid() && state == TimeoutEofResend
      modifies this`retryCnt, this`sent
      ensures Took(env, retVal)
    {
      if retryCnt >= MAX_TRIES {
        return Done;
      }
      Send(END_OF_FILE, Wrap(win.lower), [0]);
      retryCnt := retryCnt + 1;
      retVal := WaitEofAck;
    }

    /** One turn of the `switch` in `clientControl`. */
    method Turn(env: Env)
      requires Valid() && state != Done
      modifies this, win, win.paneBuff
      ensures Valid()
      ensures var step := Next(file, old(View()), env);
              View() == step.next && sent == old(sent) + step.out
    {
      StepKeepsInv(file, win.winSize, View(), env);
      var next: State;
      match state {
        case SendPacket =>
          if eofSent {
            next := WaitEofAck;
          } else {
            next := SendPacket(env);
          }
        case Waiter => next := Waiting(env);
        case HandleFeedback => next := HandlingFeedback(env);
        case TimeoutResend => next := ResendingOnTimeout(env);
        case WaitEofAck => next := WaitingForEofAck(env);
        case TimeoutEofResend => next := ResendingEof(env);
      }
      state := next;
    }

    /**
     `clientControl`, given all the feedback that will ever arrive; when it is noticed is
     left open. The loop ends, within the stated number of turns, having taken the turns
     recorded in `envs`, in which it heard the feedback in its order, as far as it got, and
     sent what the machine sends in them.
     */
    method ClientControl(inbox: seq<Received>) returns (turns: nat, ghost envs: seq<Env>)
      requires Valid() && View() == Start(win.winSize) && sent == []
      modifies this, win, win.paneBuff
      ensures Valid() && state == Done
      ensures turns == |envs| <= TurnBound(|file|, |inbox|)
      ensures var run := Run(file, Start(win.winSize), envs);
              View() == run.next && sent == run.out
      ensures Heard(file, Start(win.winSize), envs) <= inbox
      ensures forall p <- sent :: Genuine(file, p)
    {
      hide Next;
      turns, envs := 0, [];
      var left := inbox;
      while state != Done
        invariant Valid() && |left| <= |inbox|
        invariant Run(file, Start(win.winSize), envs) == Step(View(), sent)
        invariant turns == |envs|
        invariant Heard(file, Start(win.winSize), envs) + left == inbox
        invariant turns + Measure(file, win.winSize, View(), |left|) <= TurnBound(|file|, |inbox|)
        invariant state == HandleFeedback ==> left != []
        decreases Measure(file, win.winSize, View(), |left|)
      {
        var ready: bool := *;
        var readOk: bool := *;
        ready := ready && left != [];
        var env := Env(ready, readOk, if left == [] then CrcError else left[0]);
        var receives := state == HandleFeedback || (state == WaitEofAck && ready);
        StepDecreases(file, win.winSize, View(), env, |left| - if receives then 1 else 0);
        FeedbackIsWaiting(file, View(), env);
        RunSnoc(file, Start(win.winSize), envs, env);
        HeardFirst(file, Start(win.winSize), envs, env, left);
        envs := envs + [env];
        Turn(env);
        if receives {
          left := left[1..];
        }
        turns := turns + 1;
      }
      RetransmissionFidelity(file, win.winSize, envs);
    }
  }
}
