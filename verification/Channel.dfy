/**
 The lossy channel of `libcpe464`: `PacketManager` runs events that may drop a packet or
 complement one of its bytes before it is sent. Each value of `drand48()` is a parameter
 in [0, 1).
 */
module Channel {
  import opened Bytes
  import opened Checksum
  import opened Srej

  datatype MsgEvent =
    | InfoSeqNo
    | ErrorDrop(dropAll: bool, dropList: set<u32>)
    | ErrorFlipBits

  datatype Verdict = NoChange | Change | Drop

  predicate IsDraw(r: real) {
    0.0 <= r < 1.0
  }

  /** `(int)(size * drand48())`. */
  function Pick(size: nat, draw: real): (i: nat)
    requires size > 0 && IsDraw(draw)
    ensures i < size
  {
    assert 0.0 <= size as real * draw < size as real;
    (size as real * draw).Floor
  }

  /** `^= 0xFF` on a byte. */
  function Complement(b: byte): byte {
    0xff - b
  }

  function Flip(w: seq<byte>, i: nat): (r: seq<byte>)
    requires i < |w|
    ensures |r| == |w|
  {
    w[i := Complement(w[i])]
  }

  // ----- what the events do to a message, as functions of its bytes

  function Verdict1(e: MsgEvent, msgNo: u32): Verdict {
    match e
    case InfoSeqNo => NoChange
    case ErrorDrop(all, listed) => if all || msgNo in listed then Drop else NoChange
    case ErrorFlipBits => Change
  }

  function Effect1(e: MsgEvent, w: seq<byte>, draw: real): (r: seq<byte>)
    requires w != [] && IsDraw(draw)
    ensures |r| == |w|
  {
    if e.ErrorFlipBits? then Flip(w, Pick(|w|, draw)) else w
  }

  /** Events run in order until one drops the message. */
  function EffectAll(events: seq<MsgEvent>, w: seq<byte>, msgNo: u32, draws: seq<real>): (r: seq<byte>)
    requires w != [] && |draws| == |events| && forall d <- draws :: IsDraw(d)
    ensures |r| == |w|
    decreases |events|
  {
    if events == [] then w
    else
      var once := Effect1(events[0], w, draws[0]);
      if Verdict1(events[0], msgNo).Drop? then once
      else EffectAll(events[1..], once, msgNo, draws[1..])
  }

  predicate Drops(events: seq<MsgEvent>, msgNo: u32) {
    exists e <- events :: Verdict1(e, msgNo).Drop?
  }

  predicate Changes(events: seq<MsgEvent>, msgNo: u32) {
    exists e <- events :: Verdict1(e, msgNo).Change?
  }

  datatype Draws = Draws(constant: seq<real>, chance: real, which: real, at: real) {
    predicate Valid(events: nat) {
      |constant| == events && (forall d <- constant :: IsDraw(d))
      && IsDraw(chance) && IsDraw(which) && IsDraw(at)
    }
  }

  class PacketManager {
    var errorRate: real
    var msgNo: u32
    var constant: seq<MsgEvent>  // run on every message
    var chance: seq<MsgEvent>    // one of them, at the error rate

    /** `sendtoErr_init`: sequence numbers are always recorded; drops and flips are optional. */
    constructor (rate: real, drop: bool, flip: bool)
      ensures errorRate == rate && msgNo == 0 && constant == [InfoSeqNo]
      ensures chance == (if drop then [ErrorDrop(true, {})] else [])
                      + (if flip then [ErrorFlipBits] else [])
    {
      errorRate, msgNo, constant := rate, 0, [InfoSeqNo];
      chance := (if drop then [ErrorDrop(true, {})] else []) + (if flip then [ErrorFlipBits] else []);
    }

    /** What reaches the wire, given the random numbers drawn. */
    ghost function Outcome(w: seq<byte>, number: u32, draws: Draws): Option<seq<byte>>
      reads this
      requires w != [] && draws.Valid(|constant|)
    {
      var first := EffectAll(constant, w, number, draws.constant);
      match Chosen(draws)
      case Some(e) =>
        if Drops(constant, number) || Verdict1(e, number).Drop? then None
        else Some(Effect1(e, first, draws.at))
      case None => if Drops(constant, number) then None else Some(first)
    }

    /** The event chosen by chance, if it comes to one. */
    ghost function Chosen(draws: Draws): Option<MsgEvent>
      reads this
      requires draws.Valid(|constant|)
    {
      if chance != [] && draws.chance <= errorRate then Some(chance[Pick(|chance|, draws.which)]) else None
    }

    /** The `run` of one event, modifying the message in place. */
    static method RunEvent(e: MsgEvent, buf: array<byte>, number: u32, draw: real) returns (nResult: Verdict)
      requires buf.Length > 0 && IsDraw(draw)
      modifies buf
      ensures nResult == Verdict1(e, number)
      ensures buf[..] == Effect1(e, old(buf[..]), draw)
    {
      match e
      case InfoSeqNo => nResult := NoChange;
      case ErrorDrop(all, listed) => nResult := if all || number in listed then Drop else NoChange;
      case ErrorFlipBits =>
        var byteToFlip := Pick(buf.Length, draw);
        assert buf[..][byteToFlip] == buf[byteToFlip];
        buf[byteToFlip] := Complement(buf[byteToFlip]);
        nResult := Change;
    }

    method RunMsgEvents(events: seq<MsgEvent>, buf: array<byte>, number: u32, draws: seq<real>)
      returns (nResult: Verdict)
      requires buf.Length > 0 && |draws| == |events| && forall d <- draws :: IsDraw(d)
      modifies buf
      ensures buf[..] == EffectAll(events, old(buf[..]), number, draws)
      ensures nResult == if Drops(events, number) then Drop
                         else if Changes(events, number) then Change else NoChange
    {
      var hasChanged := false;
      for i := 0 to |events|
        invariant EffectAll(events[i..], buf[..], number, draws[i..])
               == EffectAll(events, old(buf[..]), number, draws)
        invariant forall e <- events[..i] :: !Verdict1(e, number).Drop?
        invariant hasChanged <==> Changes(events[..i], number)
      {
        nResult := RunEvent(events[i], buf, number, draws[i]);
        if nResult.Change? {
          hasChanged := true;
        } else if nResult.Drop? {
          return Drop;
        }
      }
      assert events[..|events|] == events;
      return if hasChanged then Change else NoChange;
    }

    method ProcessEvents(buf: array<byte>, number: u32, draws: Draws) returns (nResult: Verdict)
      requires buf.Length > 0 && draws.Valid(|constant|)
      modifies buf
      ensures nResult.Drop? <==> Outcome(old(buf[..]), number, draws).None?
      ensures !nResult.Drop? ==> Outcome(old(buf[..]), number, draws) == Some(buf[..])
      ensures !nResult.Drop? ==>
                (nResult.Change? <==>
                 match Chosen(draws)
                 case Some(e) => e.ErrorFlipBits?
                 case None => ErrorFlipBits in constant)
    {
      var hasChanged, hasDropped := false, false;
      nResult := RunMsgEvents(constant, buf, number, draws.constant);
      if nResult.Drop? {
        hasDropped := true;
      } else if nResult.Change? {
        hasChanged := true;
      }
      if |chance| > 0 && draws.chance <= errorRate {
        nResult := RunEvent(chance[Pick(|chance|, draws.which)], buf, number, draws.at);
        if nResult.Drop? {
          hasDropped := true;
        } else {
          hasChanged := nResult.Change?;
        }
      }
      nResult := if hasDropped then Drop else if hasChanged then Change else NoChange;
    }

    /**
     `sendto_Err`: the events work on a copy, so the caller's buffer is untouched (it is
     not in the frame). The result always claims that everything was sent.
     */
    method SendtoErr(buf: array<byte>, len: nat, draws: Draws) returns (sent: nat, wire: Option<seq<byte>>)
      requires 0 < len <= buf.Length && draws.Valid(|constant|)
      modifies this`msgNo
      ensures sent == len && msgNo == Add32(old(msgNo), 1)
      ensures wire == old(Outcome(buf[..len], Add32(msgNo, 1), draws))
    {
      msgNo := Add32(msgNo, 1);
      var bufTmp := new byte[len](i requires 0 <= i < len reads buf => buf[i]);
      assert bufTmp[..] == buf[..len];
      var nResult := ProcessEvents(bufTmp, msgNo, draws);
      sent := len;
      wire := if nResult.Drop? then None else Some(bufTmp[..]);
    }
  }

  // ----- the channel of the file transfer

  /** As both programs switch it on: drops and flips, in this order. */
  method SwitchOn(errorRate: real) returns (m: PacketManager)
    ensures fresh(m) && m.errorRate == errorRate && m.msgNo == 0
    ensures m.constant == [InfoSeqNo] && m.chance == [ErrorDrop(true, {}), ErrorFlipBits]
  {
    m := new PacketManager(errorRate, true, true);
  }

  /** The message arrived intact, or with one byte complemented. */
  ghost predicate Arrival(w: seq<byte>, arrived: seq<byte>) {
    arrived == w || exists i: nat :: i < |w| && arrived == Flip(w, i)
  }

  /** With drops and flips switched on, a message is lost, intact, or has one byte complemented. */
  lemma DropOrFlipOnce(m: PacketManager, w: seq<byte>, number: u32, draws: Draws)
    requires w != [] && m.constant == [InfoSeqNo] && draws.Valid(1)
    requires m.chance == [ErrorDrop(true, {}), ErrorFlipBits]
    ensures match m.Outcome(w, number, draws)
            case None => true
            case Some(arrived) => Arrival(w, arrived)
  {
    assert EffectAll(m.constant[1..], w, number, draws.constant[1..]) == w;
  }

  /**
   With drops and flips switched on, exactly what becomes of a message: a draw over the
   error rate leaves it alone; otherwise the second draw decides between losing it and
   complementing the one byte that the third draw picks.
   */
  lemma ErrorsAsDrawn(m: PacketManager, w: seq<byte>, number: u32, draws: Draws)
    requires w != [] && m.constant == [InfoSeqNo] && draws.Valid(1)
    requires m.chance == [ErrorDrop(true, {}), ErrorFlipBits]
    ensures draws.chance > m.errorRate ==> m.Outcome(w, number, draws) == Some(w)
    ensures draws.chance <= m.errorRate && draws.which < 0.5 ==> m.Outcome(w, number, draws) == None
    ensures draws.chance <= m.errorRate && draws.which >= 0.5 ==>
              var i := (|w| as real * draws.at).Floor;
              0 <= i < |w| && m.Outcome(w, number, draws) == Some(w[i := 0xff - w[i]])
  {
    assert EffectAll(m.constant[1..], w, number, draws.constant[1..]) == w;
    assert Pick(2, draws.which) == if draws.which < 0.5 then 0 else 1;
    assert Pick(|w|, draws.at) == (|w| as real * draws.at).Floor;
  }

  /** Messages listed by number are dropped, whatever is drawn; without events by chance, no others are. */
  lemma ListedAreDropped(m: PacketManager, listed: set<u32>, w: seq<byte>, number: u32, draws: Draws)
    requires w != [] && m.constant == [InfoSeqNo, ErrorDrop(false, listed)] && draws.Valid(2)
    ensures number in listed ==> m.Outcome(w, number, draws) == None
    ensures number !in listed && m.chance == [] ==> m.Outcome(w, number, draws) == Some(w)
  {
    var rest := m.constant[1..];
    assert m.constant[0] == InfoSeqNo && rest == [ErrorDrop(false, listed)];
    assert EffectAll(rest[1..], w, number, draws.constant[1..][1..]) == w;
    assert EffectAll(rest, w, number, draws.constant[1..]) == w;
    assert Drops(m.constant, number) <==> number in listed by {
      assert ErrorDrop(false, listed) in m.constant;
    }
  }

  /** No event runs on a message after one that drops it. */
  lemma {:induction false} NothingAfterDrop(
      events: seq<MsgEvent>, more: seq<MsgEvent>, w: seq<byte>, msgNo: u32, draws: seq<real>, further: seq<real>)
    requires w != [] && |draws| == |events| && |further| == |more|
    requires (forall d <- draws :: IsDraw(d)) && forall d <- further :: IsDraw(d)
    requires Drops(events, msgNo)
    ensures forall d <- draws + further :: IsDraw(d)
    ensures EffectAll(events + more, w, msgNo, draws + further) == EffectAll(events, w, msgNo, draws)
    decreases |events|
  {
    assert (events + more)[0] == events[0] && (draws + further)[0] == draws[0];
    if !Verdict1(events[0], msgNo).Drop? {
      assert (events + more)[1..] == events[1..] + more && (draws + further)[1..] == draws[1..] + further;
      NothingAfterDrop(events[1..], more, Effect1(events[0], w, draws[0]), msgNo, draws[1..], further);
    }
  }

  /** So a receiver sees either a checksum error or exactly the packet that was sent. */
  lemma ArrivalIsPacketOrCrcError(sender: Host, receiver: Host, p: Packet, arrived: seq<byte>)
    requires Arrival(Encode(sender, p), arrived)
    ensures |arrived| == HEADER_LEN + |p.payload|
    ensures Decode(receiver, arrived) == CrcError || Decode(receiver, arrived) == Got(p)
    ensures arrived != Encode(sender, p) ==> Decode(receiver, arrived) == CrcError
  {
    var w := Encode(sender, p);
    HeaderRoundTrip(sender, receiver, p);
    if arrived != w {
      var i: nat :| i < |w| && arrived == Flip(w, i);
      CorruptionRejected(receiver, w, i, Complement(w[i]));
    }
  }
}
