# Verified model of the CPE 464 network programs

This project models, in Dafny 4.11, the two larger programs of the repository and proves
what they are for.

**The file transfer (`rcopy-program3`)** is a Selective Reject ARQ protocol over UDP. The
model has the sender's ring of panes, the server's state machine, the receiver's ring of
out-of-order packets, the receiver's loop, the packet codec with its Internet checksum, and
the error-injecting `sendtoErr` library as the lossy channel. `Transfer.dfy` puts the parts
together: two networks that may lose, repeat, reorder and damage every packet, and all runs
of both programs over them.

**The chat program (`chat-program2`)** contributes the message packet and the walks over it,
the length-prefixed framing of a TCP stream, and the linked-list handle table with the
broadcast and multicast loops that use it.

## How the model is built

Each program module that changes state step by step is a class or a method with loops
(`Window`, `ServerSession`, `PacketBuffer`, `RcopySession`, `PacketManager`, `HandleList`,
`InCksum`, `CreateHeader`, ...), proved against a function on values. The theorems are lemmas
about those functions, most of them over whole runs.

| file | models |
|---|---|
| `Bytes.dfy`, `Ring.dfy` | bytes, network order, concatenation; `seqNum % winSize` |
| `Checksum.dfy`, `Srej.dfy` | `in_cksum`; packet headers, `sendBuff`, `recvBuff` |
| `Channel.dfy` | `PacketManager` with its drop and flip events |
| `Window.dfy`, `Server.dfy` | the pane ring; `clientControl` and its state functions |
| `Buffer.dfy`, `Rcopy.dfy` | the packet ring; `recvData` and the `transferFile` loop |
| `Transfer.dfy` | the whole system, over wire bytes |
| `AsWrittenSystem.dfy`, `WriteOrder.dfy` | the system with the receiver as written; the order in which it writes |
| `Runs.dfy` | runs on which a property fails |
| `Message.dfy`, `ChatServer.dfy` | chat packets; broadcast and multicast |
| `HandleTable.dfy`, `Pdu.dfy` | the handle table; the framing |

**Two receivers.** The receiver's code departs from the rule its own README gives
(`rcopy-program3/README:46-52`) in three places: it flushes the buffer without writing the
expected packet that has just arrived (`rcopy.c:265-268`), it moves the ring's base to the
first buffered packet (`buffer.c:110`), and it zeroes the packet count although packets may
wait behind a gap (`buffer.c:234`). `Rule` distinguishes `AsWritten` from `Documented`; all
other code is shared. End-to-end safety, window nesting and freedom from collisions hold
under the documented rule in every reachable state. Of the program as written:

- *Safety* fails (`Rcopy.RulesDiverge`: chunk 2 before chunk 1, and chunk 1 is never written).
  The output is what it should be if and only if no number has arrived in its turn after one
  that was ahead of it (`Transfer.AsWrittenDeliversIffNothingRepaired`).
- *Nesting* holds but for one inequality: lower <= expectedSeqNum, curr <= lower + winSize, every
  RR ever sent is below expectedSeqNum, and the buffer is open, in every reachable state
  (`AsWrittenSystem.PartsOfNesting`). expectedSeqNum <= curr fails (`Runs.OvershootRun`); a run
  keeps it throughout if and only if every flush finds a free slot from the base of the ring
  through number curr (`AsWrittenSystem.NestedIffFlushesEndBelow`).
- *Rejection*: a packet that the sender may send can end the session (`Runs.RejectionRun`: chunk 3,
  then chunk 2). In every reachable state a packet ahead is rejected if and only if packets are
  counted in the ring and its number is below their base
  (`AsWrittenSystem.AheadIsRejectedIffBelowBase`).
- *Collisions*: a packet left in the ring may be written under a later number (`Runs.OvershootRun`
  again). In every reachable state the output is the chunks of the numbers written
  (`WriteOrder.OutputIsWhatWasWritten`), and over a whole run these numbers increase strictly if
  and only if at every flush a free slot stops the run before each packet that waits below the
  base (`WriteOrder.WrittenInOrderIff`). A packet ahead is held under its own number if and only
  if it is not below the base and its slot is not taken by a packet the ring has passed, and it
  takes its own slot if and only if it is not below the base and the slot is free or holds the
  same data (`AsWrittenSystem.AheadIsRejectedIffBelowBase`).
- *Residue*, a waiting packet below the number the ring is about to serve, is not yet a
  collision (`Runs.ResidueInOrder`); its absence is a sufficient condition. The ring stays free of
  it throughout a run if and only if, with nothing counted, no packet is stored above one that
  waits and no packet is written that waits (`AsWrittenSystem.CleanIffNoResidueLeft`); then
  everything is written in order and the windows stay nested.

**What both rules give, and what neither does.** Over a network that delivers every packet at
once, every file arrives whole and both sides end (`Runs.PerfectRun`). Completion is not promised
otherwise: an RR that is lost for a full window silences both sides until the server gives up
(`Transfer.SilenceEndsInDone`, `Runs.SilentRun`), and the receiver ends on the first END_OF_FILE,
even with nothing written (`Runs.EarlyEndRun`). The EOF_ACK tells the server how much was
written, but the server does not look (`Transfer.EofAckTellsTheOutput`).

**Other places where code and documentation differ.** The model follows the code: an SREJ does
not move the server's sequence number (README:86 says it does), and the ten retries are one
budget for the whole session rather than ten per packet, since the counter is never reset.

**Outside world.** What `select`, `recvfrom` and `read` return are parameters of each step
(`Env`, `Event`), or free choices in the loops. `drand48()` is a real number in [0, 1) given
as a parameter. A file is the sequence of non-empty chunks that `read` returns; the output file
is a sequence that grows; `write` is all or nothing. The receiver as written is modelled with
32-bit wrap-around of all sequence numbers. The server computes `ack + 1` with wrap-around, as
the code does; otherwise a session is assumed to have fewer than 2^32 - winSize - 1 chunks, and
then no other sequence number wraps (`Server.FileOk`). The window size is at least 1, as `rcopy` checks before
it connects.

## Model

| member | source | states |
|---|---|---|
| Checksum.InCksum | rcopy-program3/libcpe464/checksum.c:58-86 | for up to 65536 bytes, even or odd, the signed 32-bit accumulator never overflows and two folds yield the complement of the 16-bit one's complement sum of section 1 of RFC 1071 |
| Checksum.OnesSumFolds | rcopy-program3/libcpe464/checksum.c:81-84 | the one's complement sum is the integer sum of the words modulo 65535, and is zero only for the all-zero sum |
| Checksum.ZeroChecksum | rcopy-program3/srej.c:66-69 | the receiver's test for zero accepts exactly the packets whose words sum to a positive multiple of 65535 |
| Checksum.SingleByteChangeCaught | rcopy-program3/libcpe464/checksum.c:70-85 | a checksum of zero becomes nonzero when any one byte changes, at an even, odd or last unpaired position |
| Checksum.ByteOrderIndependence | rcopy-program3/libcpe464/checksum.c:70-84 | the big-endian computation gives the byte swap of the little-endian one for every length (section 2(B) of RFC 1071) |
| Srej.CreateHeader | rcopy-program3/srej.c:42-59 | the header is completed in place around the payload: the buffer then starts with the packet's wire bytes, and what follows is untouched |
| Srej.RetrieveHeader | rcopy-program3/srej.c:61-80 | CRC_ERROR exactly when the checksum is not zero; otherwise the payload length, flag and number the bytes carry |
| Srej.SendBuff | rcopy-program3/srej.c:6-18 | the bytes handed to the socket call are the encoding of flag, number and payload, also when both buffers are the same |
| Srej.RecvBuff | rcopy-program3/srej.c:24-40 | the payload is copied out exactly when the packet is accepted; short datagrams and checksum errors copy nothing |
| Srej.EncodeIsHostIndependent | rcopy-program3/srej.c:54-56 | storing the checksum without byte-order conversion yields the same wire bytes on both kinds of host |
| Srej.HeaderRoundTrip | rcopy-program3/srej.c:42-80 | what one host encodes, any host accepts and decodes to the same number, flag and payload |
| Srej.EncodeInjective | rcopy-program3/srej.c:42-59 | different packets have different wire bytes |
| Srej.CorruptionRejected | rcopy-program3/srej.c:61-80 | an accepted packet with any one byte changed is answered with CRC_ERROR |
| Srej.WireBytes | rcopy-program3/srej.c:42-59 | the eight wire bytes of one packet, written out: number in network order, checksum, flag, payload |
| Srej.FlagBytes | rcopy-program3/srej.h:44-57 | the seventh byte tells the kind of a packet, by the values of the header file |
| Channel.PacketManager.constructor | rcopy-program3/libcpe464/network-hooks.c:181-207 | switching drops and flips on yields one recording event for every message, and the drop and flip events to choose from |
| Channel.PacketManager.RunEvent | rcopy-program3/libcpe464/MsgEvents/errorFlipBits.cpp:9-27 | the flip event complements one byte of the message in place; the others leave it alone |
| Channel.PacketManager.RunMsgEvents | rcopy-program3/libcpe464/PacketManager.cpp:100-130 | events apply in order up to the first that drops; the result is a drop exactly when some event drops, and otherwise a change exactly when some event changes the message |
| Channel.PacketManager.ProcessEvents | rcopy-program3/libcpe464/PacketManager.cpp:132-189 | the result and the changed message agree with the outcome of the constant events and the one chosen by chance; a change is reported exactly when the chosen event flips, or, if none is chosen, a constant one does |
| Channel.PacketManager.SendtoErr | rcopy-program3/libcpe464/PacketManager.cpp:346-408 | the caller's buffer is untouched, the full length is always claimed, and the outcome for a copy of the message is what goes out |
| Channel.DropOrFlipOnce | rcopy-program3/libcpe464/PacketManager.cpp:132-189 | with drops and flips on, every message is lost, arrives intact, or arrives with exactly one byte complemented |
| Channel.ErrorsAsDrawn | rcopy-program3/libcpe464/PacketManager.cpp:153-176 | with drops and flips on: a draw over the error rate leaves the message alone; otherwise a second draw below one half loses it, and any other complements the byte at the floor of the third draw times the length |
| Channel.ListedAreDropped | rcopy-program3/libcpe464/MsgEvents/errorDrop.cpp:29-56 | a message whose number is listed is dropped whatever is drawn, and no other |
| Channel.NothingAfterDrop | rcopy-program3/libcpe464/PacketManager.cpp:111-127 | events after one that drops leave the message alone |
| Channel.ArrivalIsPacketOrCrcError | rcopy-program3/srej.c:24-40 | whatever arrives is decoded to CRC_ERROR or to exactly the packet sent, and to CRC_ERROR whenever it was damaged |
| Window.Window.constructor | rcopy-program3/window.c:11-63 | a new window is the empty log starting at sequence number 1 |
| Window.Window.WindowOpen | rcopy-program3/window.c:277-292 | open exactly when curr - lower < winSize: the test of the pane's ack flag is redundant |
| Window.Window.AddPane | rcopy-program3/window.c:99-155 | succeeds exactly when the window is open, the data not empty and the number the next one; then extends the log, otherwise changes nothing |
| Window.Window.MarkPaneAck | rcopy-program3/window.c:158-179 | succeeds exactly for numbers in [lower, curr), and marks just that one |
| Window.Window.CheckPaneAck | rcopy-program3/window.c:182-197 | tells the mark of exactly the numbers in [lower, curr), and -1 for all others |
| Window.Window.SlideWindow | rcopy-program3/window.c:200-226 | moves the lower bound, for every bound in [lower, curr], and refuses all others; the ring again shows the slice |
| Window.Window.ResendPane | rcopy-program3/window.c:229-252 | yields the data added under a number exactly while that number is in the slice and unacknowledged |
| Window.RunKeepsWindow | rcopy-program3/window.c:99-226 | under any sequence of operations the window stays a slice of at most winSize numbers, bounds never retreat, and what was added never changes |
| Window.NothingEmptyAdded | rcopy-program3/window.c:99-155 | no operation puts an empty packet into the window |
| Window.ResendAfterRun | rcopy-program3/window.c:229-252 | after any further operations a packet is resent as it was added, until it is slid past or acknowledged |
| Server.ServerSession.SendPacket | rcopy-program3/server.c:282-312 | reads and sends the next chunk into an open window, or the end of file; its new state is the specified one |
| Server.ServerSession.Waiting | rcopy-program3/server.c:314-329 | feedback first; otherwise a timeout exactly when the window is closed |
| Server.ServerSession.HandlingFeedback | rcopy-program3/server.c:366-399 | RR slides, SREJ resends, other packets end the session, checksum errors are ignored |
| Server.ServerSession.ResendingOnTimeout | rcopy-program3/server.c:507-517 | spends a try on resending the lowest pane, or ends the session |
| Server.ServerSession.WaitingForEofAck | rcopy-program3/server.c:430-462 | late RRs and SREJs are still served; EOF_ACK ends the session; silence is a timeout |
| Server.ServerSession.ResendingEof | rcopy-program3/server.c:529-539 | spends a try on repeating END_OF_FILE, or ends the session |
| Server.ServerSession.Turn | rcopy-program3/server.c:138-185 | one turn of the loop keeps the session invariant, and over the real ring does what the machine does over the log |
| Server.ServerSession.ClientControl | rcopy-program3/server.c:122-189 | the loop ends in DONE within 2 chunks + 3 feedback + 23 turns; it has run the machine, hearing the feedback in order as far as it got, and every data packet it sent was genuine |
| Server.StepKeepsInv | rcopy-program3/server.c:138-185 | against any feedback a turn keeps the invariant, sends at most one packet, and only genuine ones below curr |
| Server.RunKeepsInv | rcopy-program3/server.c:122-189 | the session invariant holds in every reachable state |
| Server.RetransmissionFidelity | rcopy-program3/server.c:282-399 | over any run, against any RR and SREJ values, each data packet numbered k carries the k-th chunk of the file |
| Server.LowerNeverDecreases | rcopy-program3/server.c:378-384 | between any two moments of a run the window's bounds have not retreated and no stored packet has changed |
| Server.SendsInOrder | rcopy-program3/server.c:286-310 | each chunk is sent first exactly once and in file order, and no END_OF_FILE goes out before all of them |
| Server.TimeoutsBounded | rcopy-program3/server.c:507-539 | over a whole run the timeout resends, data and end of file together, number exactly the tries used, at most MAX_TRIES |
| Server.DoneIffEnded | rcopy-program3/server.c:138-185 | over any run the session is over if and only if the other side ended it, a read failed, or a timeout found all tries used |
| Server.StopsOnlyAfterAllTries | rcopy-program3/server.c:366-539 | against RRs, SREJs and damaged packets, with a readable file, the server is done only when exactly MAX_TRIES packets have been repeated by timeouts |
| Server.TimeoutsFollowSilence | rcopy-program3/server.c:314-329 | a timeout is only reached by a poll that found nothing, in the data phase with a full window |
| Server.TimeoutsRepeatLow | rcopy-program3/server.c:507-517 | over any run each packet a timeout repeats is a chunk of the file at or below the lower bound |
| Server.EofNumbers | rcopy-program3/server.c:286-296 | over any run the first END_OF_FILE is numbered behind the last chunk, and each repeat of it with a lower bound |
| Server.WaitingServes | rcopy-program3/server.c:430-462 | while the server waits for the EOF_ACK, any number of packets other than that and RRs leave it as it is, and draw only the chunks that SREJs name |
| Server.CorruptionIsLoss | rcopy-program3/server.c:366-376 | any run ends in the same state, having sent the same packets, as the run without its damaged packets and the polls that reported them |
| Server.TimeoutResendsLowest | rcopy-program3/server.c:165-167 | in every reachable TIMEOUT_RESEND state the window is full, and the resend succeeds with the lowest unacknowledged chunk while tries remain |
| Server.Bookkeeping | rcopy-program3/server.c:146-175 | nextToSend is curr before the end of file and curr + 1 after; the addPane of a first transmission never fails; WAITER, HANDLE_FEEDBACK and TIMEOUT_RESEND are unreachable after END_OF_FILE |
| Server.StepDecreases | rcopy-program3/server.c:138-185 | every turn lowers a measure of reads, feedback and tries left and the rank of the state |
| Server.SessionTerminates | rcopy-program3/server.c:138-185 | with finitely much feedback every run is in DONE after a number of turns linear in chunks, feedback and tries |
| Buffer.PacketBuffer.constructor | rcopy-program3/buffer.c:11-62 | a new packet buffer is an empty ring with base 1 and no output |
| Buffer.PacketBuffer.AddPacket | rcopy-program3/buffer.c:98-148 | stores, ignores or rejects a packet as specified, including the move of the base before a rejection |
| Buffer.PacketBuffer.Flush | rcopy-program3/buffer.c:187-236 | the loop drains the ring as specified, zeroes the count and returns the number of bytes appended |
| Buffer.FlushWritesMaximalRun | rcopy-program3/buffer.c:187-236 | a flush appends, in order, exactly the maximal run of waiting packets from the base, at most one lap; frees exactly those slots; advances the base by the run |
| Buffer.FlushCountIsRightWithoutGap | rcopy-program3/buffer.c:233-235 | as written: the zeroed count is the number of packets in the ring if and only if none waited behind a gap |
| Rcopy.RcopySession.RecvData | rcopy-program3/rcopy.c:213-300 | as written: one call leaves the specified state and sends the specified reply |
| Rcopy.RcopySession.TransferFile | rcopy-program3/rcopy.c:68-110 | as written: the loop ends whatever arrives, has made the calls of a run of the specification, reading the arrivals in order as far as it got; its RRs increase strictly if and only if nothing expected arrived after the expected number had wrapped, and always for arrivals below 2^32 - 1 |
| Rcopy.ProgressStep | rcopy-program3/rcopy.c:245-291 | as written: the expected number changes only on a packet that carries it, and then increases, but for the wrap of 2^32 - 1 with nothing buffered; packets counted in the ring keep its base occupied and ahead of the expected number |
| Rcopy.NeverRetreatsIffNeverWraps | rcopy-program3/rcopy.c:263-287 | as written, over any arrivals at all: the expected number never retreats if and only if no call is handed 2^32 - 1 as the expected number with nothing buffered |
| Rcopy.AcknowledgementsIncrease | rcopy-program3/rcopy.c:263-292 | as written, over any arrivals at all: the RRs increase strictly if and only if nothing expected arrives after the expected number has wrapped; until then each is below the expected number, and once it has wrapped 2^32 - 1 is among them |
| Rcopy.WrapRun | rcopy-program3/rcopy.c:286-290 | as written, window of one, numbers 2^32 - 2, 1, 2^32 - 1, 0: the expected number goes to 2^32 - 1 and then to 0, and the RRs end with 0 |
| Rcopy.RejectedIffOutsideLap | rcopy-program3/buffer.c:98-119 | as written: a packet ahead ends the session if and only if the buffer is open and addPacket rejects it: it is empty, or outside the lap of the base while packets are counted, or the first and within a lap of 2^32; otherwise it is answered, and is in the ring if the buffer is open |
| Rcopy.ReceiverDoneIffEnded | rcopy-program3/rcopy.c:213-300 | as written, over any arrivals at all: the receiver is done if and only if it was left waiting, got the end of file or an unknown flag, or addPacket rejected a packet ahead |
| Rcopy.AsWrittenCorrectIffNeverFlushed | rcopy-program3/rcopy.c:263-287 | as written, fed genuine packets: the output is the chunks below the expected number if and only if the needFlush() branch was never taken |
| Rcopy.FlushesAreRepairs | rcopy-program3/rcopy.c:244-287 | as written, fed genuine packets: whether the needFlush() branch has been taken can be told from the arriving numbers alone, and until then so can the expected number, the base, the count and which numbers wait |
| Rcopy.AsWrittenCorrectIffNothingRepaired | rcopy-program3/rcopy.c:244-293 | as written, fed genuine packets: the output is the chunks below the expected number if and only if no number arrived in its turn after one that was ahead, a condition on the arriving numbers alone |
| Rcopy.RulesDiverge | rcopy-program3/rcopy.c:265-268 | chunk 2 before chunk 1, window of two: the documented rule writes both, the code only the second, and both expect 3 next |
| Rcopy.BufferAlwaysOpen | rcopy-program3/rcopy.c:248-248 | documented rule: the buffer is open in every state, as the source's remark says, and the expected number's slot is free |
| Rcopy.AheadIsBuffered | rcopy-program3/README:50-50 | documented rule: a packet ahead is never rejected, is in the ring afterwards, and is answered with an SREJ for the expected number |
| Rcopy.ExpectedIsWritten | rcopy-program3/README:48-48 | documented rule: the expected packet is written, then all that follow on; the ring keeps what waits behind a gap |
| Rcopy.DocumentedKeepsInv | rcopy-program3/README:46-52 | documented rule: every fitting packet keeps output, ring and count consistent with the file, and the expected one makes progress |
| Transfer.ReachableSender | rcopy-program3/server.c:122-189 | under either receiver, every packet on the network to the receiver is genuine and below curr |
| Transfer.ReachableInv | rcopy-program3/README:16-58 | documented rule: both programs and both networks keep the joint invariant in every reachable state |
| Transfer.DeliversPrefix | rcopy-program3/README:46-58 | documented rule: in every reachable state the output is exactly the chunks below the expected number, a prefix of the file, and contains all that the server has slid past |
| Transfer.WholeFileAtEof | rcopy-program3/rcopy.c:234-241 | documented rule: the output is the whole file if and only if the expected number is one past the last chunk, so an end of file handled then completes it |
| Transfer.WindowsNested | rcopy-program3/README:16-58 | documented rule: lower <= expectedSeqNum <= curr <= lower + winSize in every reachable state, and the buffer is open |
| Transfer.NoCollisions | rcopy-program3/buffer.c:112-128 | documented rule: a packet ahead, whichever ever sent, is within a lap, is stored in a slot that is free or its own, and disturbs no other |
| Transfer.ExpectedChunkAdvances | rcopy-program3/README:48-48 | documented rule: an intact copy of the expected chunk, once delivered, advances the transfer |
| Transfer.ChannelIsCovered | rcopy-program3/libcpe464/PacketManager.cpp:376-405 | whatever the channel makes of a message is among the deliveries of the model's networks |
| Transfer.FeedbackIsEffective | rcopy-program3/rcopy.c:257-291 | documented rule: in every reachable state an SREJ, if it gets through, is answered with exactly the missing chunk, and an RR slides the window to the expected number |
| Transfer.EofAckTellsTheOutput | rcopy-program3/server.c:430-462 | documented rule: when an EOF_ACK ends the server, the receiver has finished and its output is the chunks below the number in that packet, the whole file if and only if that is one past the last chunk |
| Transfer.OnlyChunksBeforeEof | rcopy-program3/server.c:282-312 | under either rule, until the server has sent its end of file only genuine chunks below curr are on the network |
| Transfer.EveryChunkIsOut | rcopy-program3/server.c:303-310 | under either rule, every chunk below curr has been sent as DATA |
| Transfer.LostAcknowledgementStalls | rcopy-program3/rcopy.c:244-299 | under either rule: once the receiver has passed the whole of a full window, then over any further actions in which no RR for it gets through nothing is written, no reply is sent and the window does not move |
| Transfer.SilenceEndsInDone | rcopy-program3/server.c:165-185 | under either rule: the server of such a run is in DONE after a number of turns linear in chunks and feedback, with nothing more written or sent in reply |
| Transfer.AsWrittenDeliversIffNothingRepaired | rcopy-program3/rcopy.c:244-293 | as written, in the whole system: the output is the chunks below the expected number if and only if no number arrived in its turn after one that was ahead |
| AsWrittenSystem.ReachableAsWritten | rcopy-program3/buffer.c:98-236 | as written: in every reachable state the ring, the count and the numbers of the waiting packets keep an invariant, and no feedback on the network makes the server slide past the receiver |
| AsWrittenSystem.PartsOfNesting | rcopy-program3/rcopy.c:244-292 | as written: in every reachable state lower <= expectedSeqNum, curr <= lower + winSize, every RR ever sent is below expectedSeqNum, and the buffer is open |
| AsWrittenSystem.NestedIffFlushesEndBelow | rcopy-program3/buffer.c:198-231 | as written: expectedSeqNum <= curr throughout a run if and only if every flush in it finds a free slot from the base through number curr |
| AsWrittenSystem.AheadIsRejectedIffBelowBase | rcopy-program3/buffer.c:109-141 | as written, in every reachable state: a packet ahead ends the session if and only if packets are counted and its number is below their base; it is held under its own number if and only if, besides, its slot is not taken by a packet the ring has passed; it takes its own slot and no other if and only if, besides, the slot is free or holds the same data |
| AsWrittenSystem.CleanIffNoResidueLeft | rcopy-program3/buffer.c:109-128 | as written: the ring is free of residue throughout a run if and only if, with nothing counted, no packet is stored above one that waits and no packet is written that waits |
| AsWrittenSystem.CleanRunsAreNested | rcopy-program3/buffer.c:187-236 | as written: runs without residue keep the windows nested |
| AsWrittenSystem.EofAckTellsTheOutputIff | rcopy-program3/server.c:430-462 | as written: when an EOF_ACK ends the server, the receiver has finished, and its output is the chunks below the number in that packet if and only if nothing was repaired |
| WriteOrder.OutputIsWhatWasWritten | rcopy-program3/buffer.c:198-231 | as written: in every reachable state the output is the chunks of the numbers under which the written packets had arrived, in that order |
| WriteOrder.OwnRunIffStops | rcopy-program3/buffer.c:198-231 | as written: a flush writes each packet under its own number if and only if a free slot stops the run before each packet that waits below the base |
| WriteOrder.FlushIsStretchIfItStops | rcopy-program3/buffer.c:187-236 | as written: then it appends exactly the stretch of the file from the base to where it ends, below curr |
| WriteOrder.WrittenInOrderIff | rcopy-program3/rcopy.c:263-287 | as written: over a whole run the packets are written in the order of their numbers, none twice, if and only if at every flush a free slot stops the run before each packet that waits below the base |
| WriteOrder.CleanRunsWriteInOrder | rcopy-program3/buffer.c:198-231 | as written: in a run without residue every flush stops in time |
| Runs.RejectionRun | rcopy-program3/rcopy.c:248-254 | as written, any window of three or more: chunks 1 to 3 are sent, 3 and then 2 arrive, and the receiver ends with nothing written |
| Runs.GapIsForgotten | rcopy-program3/buffer.c:227-234 | as written, window of four: after 2, 4 and 1 the count is 0 and packet 4 waits in the ring |
| Runs.OvershootRun | rcopy-program3/buffer.c:198-231 | as written, window of four: after 2, 4, 1, 3, 7, 4 chunk 4 is written as number 8, which was never sent, and the receiver expects 9 where curr is 8 |
| Runs.OvershootIsNotNested | rcopy-program3/buffer.c:198-231 | as written: that run is not nested throughout, and it leaves residue |
| Runs.OvershootIsOutOfOrder | rcopy-program3/buffer.c:198-231 | as written: in that run the numbers written do not increase |
| Runs.ResidueInOrder | rcopy-program3/rcopy.c:270-287 | as written, window of four: after 2, 4, 1, 3, 4 packet 4 still waits in the ring, and yet the numbers written increase |
| Runs.SilentRun | rcopy-program3/server.c:165-185 | under either rule, any window and any file at least as long: a full window is received, its RRs are lost, the server repeats chunk 1 exactly MAX_TRIES times and gives up, and the output is the window and no more |
| Runs.PerfectRun | rcopy-program3/README:16-58 | under either rule, any file and any window: when every packet is delivered at once the output is the file, byte for byte, and both sides end |
| Runs.BurstRun | rcopy-program3/server.c:430-462 | under either rule, any file shorter than the window: everything is sent before anything is delivered, one RR that comes after the end of file acknowledges it all, and the file arrives whole |
| Runs.RepairRun | rcopy-program3/server.c:366-399 | window of two: a lost chunk is asked for, sent again and accepted; the documented rule writes both chunks, the code only the second |
| Runs.EarlyEndRun | rcopy-program3/rcopy.c:234-241 | under either rule, any file shorter than the window: all chunks are lost, the end of file is acknowledged, and both sides end with nothing written |
| Pdu.SendPDU | chat-program2/pdu.c:16-45 | writes the frame of the payload and returns the payload's length |
| Pdu.RecvPDU | chat-program2/pdu.c:53-97 | reads one frame of the stream: payload, closed or error, and exactly the bytes it used up |
| Pdu.FrameRoundTrip | chat-program2/pdu.c:53-97 | a frame is read back exactly if and only if its payload is not empty and fits the buffer; an empty one reads as closed, one too long as an error |
| Pdu.TornFrame | chat-program2/pdu.c:53-97 | a connection that ends inside a frame yields no payload: closed if it ends before the frame or right behind its length, and an error otherwise |
| Pdu.TornStream | chat-program2/pdu.c:53-97 | whole frames before a torn one are received, and nothing of the torn one is |
| Pdu.TooShortLength | chat-program2/pdu.c:77-81 | a length below two is an error, and nothing behind it is read |
| Pdu.StreamRoundTrip | chat-program2/pdu.c:16-97 | repeated receiving recovers the list of payloads sent if and only if every one is not empty and fits the buffer |
| Message.BuildMsgPacket | chat-program2/shared.c:105-168 | for strings in range it succeeds for a message exactly with one destination, for a multicast exactly with two to nine, and for a broadcast always; otherwise it returns -1, having written nothing if it fails before the first byte; on success the packet holds flag, sender, destinations and text, and its length is returned |
| Message.SentIffCountFits | chat-program2/shared.c:105-135 | what may be sent, by the number of destinations of each kind of packet |
| Message.SentIsReadBack | chat-program2/shared.c:64-168 | whatever the numbers allow is built, and sender, destinations and text are read back from any buffer it is received in |
| Message.GetHandleFromBuffer | chat-program2/shared.c:64-101 | yields the sender's or the first destination's handle, or stops on a length over MAX_HANDLE_LENGTH |
| Message.GetMsgIdx | chat-program2/cclient.c:479-498 | computes the specified index past the destinations |
| Message.MessageRoundTrip | chat-program2/cclient.c:479-498 | on every packet that fits, the server's walk recovers exactly the destinations, and getMsgIdx lands on the text, which reads as the string sent |
| Message.HandlesReadBack | chat-program2/shared.c:64-101 | sender and first destination are read back from a received packet |
| HandleTable.HandleList.AddHandle | chat-program2/handleTable.c:11-45 | prepends the new node exactly when the table has room and the handle is free; the list stays acyclic and the count right |
| HandleTable.HandleList.LookupHandle | chat-program2/handleTable.c:48-60 | returns the socket of the handle's node, or -1 |
| HandleTable.HandleList.RemoveHandle | chat-program2/handleTable.c:63-88 | unlinks the first node of the socket, or reports that there is none |
| HandleTable.HandleList.GetHandles | chat-program2/handleTable.c:91-122 | copies all handles, in list order |
| HandleTable.LookupIsMapLookup | chat-program2/handleTable.c:48-60 | searching the list is looking up the map it stands for |
| HandleTable.AddExtendsMap | chat-program2/handleTable.c:11-45 | adding extends the map exactly when the handle is new and fewer than MAX_HANDLES are there |
| HandleTable.RemoveTakesOneHandle | chat-program2/handleTable.c:63-88 | removing a socket takes out exactly one handle, the newest of that socket, and nothing when there is none |
| HandleTable.TableIsAMap | chat-program2/handleTable.c:11-122 | after any adds and removes the handles are distinct, at most MAX_HANDLES, and each looks up to its own socket |
| ChatServer.Broadcast | chat-program2/server.c:172-206 | the loop sends to the entries on other sockets, in list order |
| ChatServer.BroadcastReachesOthersOnce | chat-program2/server.c:172-206 | after any adds and removes, a broadcast gives each handle on another socket exactly one copy, and nobody else any |
| ChatServer.PrivateMessage | chat-program2/server.c:207-252 | the message case looks up the one destination and sends to its socket, or an error to the client |
| ChatServer.MessageReachesDestination | chat-program2/server.c:207-252 | a private message a client built reaches its destination's socket once, or comes back as an error that names the missing destination |
| ChatServer.Multicast | chat-program2/server.c:253-302 | for any buffer contents the walk stays inside the buffer and acts on the destinations in order, up to a length that is too great |
| ChatServer.MulticastReachesDestinations | chat-program2/server.c:253-302 | a packet a client built reaches each destination in the table once, in order, and causes one error packet for each that is missing |
| ChatServer.MulticastErrorNamesSender | chat-program2/server.c:253-302 | over a whole multicast, every error packet names the missing destination if and only if no handle but the sender's is missing; when the sender is in the table, if and only if there is no error at all |
| ChatServer.ErrorsNameOnlyTheSender | chat-program2/server.c:281-293 | client 4 registers as "a", alone, and a packet is received in which it multicasts to "b" and "c": both error packets name "a" |

## Left out

- Sockets, `select` and `poll`, `fork`, signals, address resolution, debug printing and argument parsing: their results are parameters.
- The file name handshake with reconnection, and several server children: one established session is modelled, from the state after FILENAME on.
- Allocation and freeing of memory, and the failure of `write`.
- Completion of a transfer is not claimed, since neither rule promises it: see `Transfer.LostAcknowledgementStalls` and `Runs.EarlyEndRun`.
- Sequence numbers near 2^32 on the sending side: a session is assumed to be shorter than that. The receiver as written is modelled with wrap-around.
- Sizes of packet buffers: chunks and chat packets are assumed to fit the buffers the programs use, as their callers arrange.
- Buffer.FlushWritesMaximalRun: a ring whose base lies within winSize of 2^32 is left out; by `Rcopy.ProgressStep` no call of the program flushes such a ring.
- Buffer.FlushCountIsRightWithoutGap: the same.
- Message.BuildMsgPacket: handles are assumed to fit the arrays of MAX_HANDLE_LENGTH characters that the client keeps them in, and the packet its buffer once writing starts.
- Message.GetMsgIdx: a walk that leaves the buffer is left out, since the code then reads memory behind it.
- Pdu.SendPDU: a failed allocation and a short send are not modelled.
- HandleTable.HandleList.AddHandle: a handle is assumed to fit the node's array; running out of memory is not modelled.
- Window.Window.AddPane: a pane's memory is a sequence that is replaced, so leftover bytes behind a shorter packet are not modelled; they are never read.
- Srej.RecvBuff: what flag and number a datagram shorter than a header yields is not stated, since the code reads them from uninitialised memory.
- Channel.PacketManager.SendtoErr: rounding of the floating-point random numbers is not modelled, the draws being real numbers; nor is a socket call that fails or sends less.
- ChatServer.Broadcast: only the case in which every send succeeds; a failing send also removes the client.
- ChatServer.PrivateMessage: the same.
- ChatServer.Multicast: the same; the receive buffer is only read here, so it is a sequence rather than an array.
- Chat handle lists (flags 11 to 13), whose packet length is a known defect, and registration.
- `processSelect`, `getPacket`, `isWritten` and `freePacketBuffer`: unused in the modelled states, or only freeing memory.
- Environment overrides of the error library, the tracing program `trace-program1`, the labs and the older copies of the sources.
