# Verified models of the NexArm protocols, dataset tools and motion timing

A Dafny model of the parts of the NexArm repository that are protocols, state machines or exact arithmetic, with
proofs about whole runs. `dafny verify dfyconfig.toml` checks everything; no file depends on anything outside this
directory.

| file | models |
|---|---|
| `Common`, `Bytes`, `Bits`, `Reals` | options, powers of two; bytes, 16-bit fields, XOR and its bits, stretches of memory; products and shares of reals |
| `Mailbox`, `MailboxMemory`, `MailboxPort` | the shared 4096-byte mailbox: one slot as interleaved bus transactions, both directions on the raw bytes, the firmware's methods |
| `CheckBytes`, `WireFormats` | what the check bytes notice; every format byte by byte in plain numbers |
| `FrameCodec`, `Fragments`, `FragmentLink`, `EndToEnd` | protocol frames, fragmentation and reassembly, the methods with their buffer, and everything together over the mailbox |
| `SerialFrames`, `SerialPorts`, `WaitReply`, `Firmware` | the FF FF serial format with its three parsers, and the firmware image sent over it |
| `Dataset`, `SeedPlan`, `GenerationHistory`, `ResumeSwap` | dataset generation: attempts, shards, merge, reports, seeds over histories of runs, and the crash-safe directory swap |
| `ColorStack`, `ColorSearch`, `ColorDescent`, `ColorGrabber` | stacking blocks by colour: the machine and its plan; the search with its stability timer and tracking; where the jaws go; the object |
| `ColorReport`, `ColorFrames`, `GrabberLink` | the camera's colour report, runs that start from its bytes, and runs fed through the mailbox |
| `FollowPath`, `SplineTiming` | minimum-jerk sweeps through waypoints, and the time schedule of a spline policy |
| `McNemar`, `UrdfFrames` | exact paired statistics, and link frames as a fixpoint |

Each component has a specification (a step function or a recursive function), methods or classes in the source's
imperative form proved equal to it, and lemmas about the specification over every input or every reachable state.

## How the models are set up

- **Mailbox.** One event is one I2C transaction; metadata is 8 bytes and moves in one, data takes many. Writer and
  reader of one slot are the firmware's own `writeHostSlot` and `readDevSlot`: the camera's side, which is not part
  of this repository, is taken to mirror them. The reader is either the language-model control's or the colour
  grabber's, which differ in the lengths they accept, in the bytes per transaction and in what they do with a READY
  slot whose generation they know. Both sides may restart between any two transactions, also inside a call. A reader
  restart loses the frame in the slot, and frames of usable length are lost in no other way. A writer restart loses
  the call it cuts off. The slot gets stuck exactly by a writer restart under WRITING or, with the grabber's reader,
  by a reader restart while it is not EMPTY.
- **Fragments.** `buildFrame` makes command frames only and `parseFrame` dispatches other kinds, so reassembly is
  modelled up to the dispatch, with the message handed over as data.
- **Serial parsers.** The SDK's and the firmware's parser are one automaton with the limits 252 and 250;
  `wait_reply`, which skips by counting, is a second one, proved to agree with it.
- **Dataset generation.** The simulator's verdicts are an input. A run is one step of a history; merging datasets
  concatenates their episodes in source order. In `ResumeSwap` a crash may fall before or after every file-system
  step, and removals may stop halfway.
- **Colour stacking.** A call of `update` is one event with the clock when it starts and when it acts and what the
  mailbox poll would find. The bearing of the grab point comes with the event as the cosine and sine the library
  computed. The object's fields are grouped in records.
- **Motion.** Numbers are reals. Whether the planned gripper command changes is an arbitrary boolean for each step.

## Where the code and its own words differ

- The log line of `ColorGrabber.cpp:405` says the block was stable for 3 s. What is true is that every report that
  counted for 3 s was centred; two centred reports 3 s apart with none in between are enough
  (`ColorSearch.ThreeSteadySecondsSuffice`).
- The grab uses the tracked target, not the pose the arm was last sent to; the two can differ by the moves the 40 ms
  throttle held back since the last move, and are equal exactly if those come to nothing
  (`ColorSearch.GrabbedWhereTheArmIsIff`, `ColorSearch.ThrottledMoveIsLost`).
- The descent turns the calibration offset into the direction of the grab point and the close does not, so the jaws
  close elsewhere unless the block lies straight ahead (`ColorDescent.ClosesWhereItDescendsIff`).
- Asked to stack no colours, the grabber stacks one (`ColorStack.StacksTheRequestIff`). The firmware's only call asks
  for one colour.
- The SDK can send frames that the firmware's parser refuses: 249 to 253 data bytes (`SerialPorts.LongestFrames`);
  the SDK's own parser refuses 251 to 253.
- A writer that restarts while its slot is WRITING can never send again: `initMailbox` does not empty the slot and
  `writeHostSlot` refuses it (`Mailbox.DrainsIffNeverJammed`).
- The colour grabber's `readDevSlot` (`ColorGrabber.cpp:112`, and `CalibrationGrabber.cpp:112` likewise) leaves a READY
  slot alone whose generation it knows, where the other copies empty it (`AiLLMControl.cpp:169-172`). `start` takes
  over the generation of whatever frame is in the device slot, so if there is one, it is never read, no report ever
  arrives, and starting again does not help (`Mailbox.StartCanStall`, `GrabberLink.FinishableIff`).
- The grabber accepts any colour name, but one of more than 31 characters matches no report, and a run does not get
  past it (`GrabberLink.UnnameableIsNotPassed`).
- The callers of `wait_reply` give it an array of 8 bytes, and it fills in up to 14
  (`WaitReply.CallersArraySufficesIff`, `WaitReply.CallersArrayCanBeTooShort`).
- `tx_packet_complete` takes any 8-bit data length; from 250 on the check byte does not fit the argument array and the
  length returned wraps around (`SerialPorts.CommProtocol.TxPacketComplete`).
- After a fragmented send gives up, the sender's next command loses its first fragment without notice; after a restart
  of the sender it can even be appended to what was sent before (`Fragments.AfterAnAbortedSend`,
  `Fragments.FirstSendsContinueIff`).
- With one step and a path of at most 25 ticks, `_follow_path` sends only the current pose before the final one
  (`FollowPath.SweepEndsThere`). The repository's only call asks for at least 12 steps.

## Model

| member | source | states |
|---|---|---|
| `Mailbox.NextGen` | firmware/esp32/follower/Nex_Arm/AiLLMControl.cpp:154-155 | generations are never 0, stay 16 bits wide and differ from their predecessor, wrap included |
| `Mailbox.StepInv` | firmware/esp32/follower/Nex_Arm/AiLLMControl.cpp:150-189 | every bus transaction or restart, by either side, in any interleaving and in the middle of a call too, keeps the invariant that ties slot, writer, reader and history together |
| `Mailbox.RunInv` | firmware/esp32/follower/Nex_Arm/AiLLMControl.cpp:130-189 | hence every state reachable from two initialised sides satisfies it |
| `Mailbox.EveryFrameHasItsFate` | firmware/esp32/follower/Nex_Arm/AiLLMControl.cpp:130-189 | at most one frame is in flight; every acknowledged frame was returned byte for byte if and only if its length was legal and no reader restart of the run fell while it was in the slot, otherwise skipped; no read mixes two frames or fails its XOR |
| `Mailbox.MissedIffRestartedOver` | firmware/esp32/follower/Nex_Arm/AiLLMControl.cpp:144-145 | the frames a reader has missed, and whether it will miss the present one, are exactly those that were in the slot at one of its restarts |
| `Mailbox.InOrderExactlyOnce` | firmware/esp32/follower/Nex_Arm/AiLLMControl.cpp:150-189 | unless the reader restarts, the frames returned are the legal posted frames, in order, each once, over unbounded runs with writer restarts and generation wrap-around |
| `Mailbox.RestartLosesTheFrameInTheSlot` | firmware/esp32/follower/Nex_Arm/AiLLMControl.cpp:144-145 | in any state, a reader that initialises while a frame is being written, waits or is being read never returns that frame, whatever happens next |
| `Mailbox.PostedAreTheAcceptedCalls` | firmware/esp32/follower/Nex_Arm/AiLLMControl.cpp:150-163 | what is posted is what the accepted `writeHostSlot` calls were given, in call order: a call that a writer restart cut off is lost whole, the one in progress is outstanding, every other one has been posted |
| `Mailbox.Advances` | firmware/esp32/follower/Nex_Arm/AiLLMControl.cpp:150-189 | in every reachable state that is not stuck and has work left, the transaction of the side whose turn it is brings the slot closer to empty |
| `Mailbox.Drains` | firmware/esp32/follower/Nex_Arm/AiLLMControl.cpp:150-189 | from every reachable state that is not stuck, the sides' own transactions empty the slot with every posted frame disposed of |
| `Mailbox.StuckForever` | firmware/esp32/follower/Nex_Arm/AiLLMControl.cpp:152-168 | a slot that a writer restart left WRITING, or that the colour grabber's reader restarted over, stays stuck whatever happens, further restarts included: never emptied, nothing read, and unchanged once the writer is outside its call |
| `Mailbox.StuckIffJammed` | firmware/esp32/follower/Nex_Arm/AiLLMControl.cpp:144-163 | those states are reached exactly by a writer restart while the slot is WRITING or, with the colour grabber's reader only, a reader restart while it is not EMPTY |
| `Mailbox.DrainsIffNeverJammed` | firmware/esp32/follower/Nex_Arm/AiLLMControl.cpp:130-189 | after any run, some continuation empties the slot if and only if the run had no such restart; for the language-model control's reader that is no writer restart under WRITING |
| `Mailbox.RestartCanAbandon` | firmware/esp32/follower/Nex_Arm/AiLLMControl.cpp:159-162 | the first kind happens: restarting after the first transaction of any call |
| `Mailbox.StartCanStall` | firmware/esp32/follower/Nex_Arm/ColorGrabber.cpp:67-112 | the second kind happens: after a frame is written out and the grabber initialises, slot, posted frames and fates never change again |
| `Mailbox.GrabberSkipsNothing` | firmware/esp32/follower/Nex_Arm/ColorGrabber.cpp:110-130 | restarts or not, the colour grabber's reader hands on the legal posted frames in order, each once, up to the first it restarted over |
| `Mailbox.ReadyFitsTheSlot` | firmware/esp32/follower/Nex_Arm/ColorGrabber.cpp:113-113 | the length the grabber does not compare with the slot size never exceeds it |
| `Mailbox.CopyChunkReads` | firmware/esp32/follower/Nex_Arm/AiLLMControl.cpp:88-103 | a read in 32-byte (or the grabber's 30-byte) transactions continues the frame exactly where the previous one ended |
| `Mailbox.UninterruptedWrite` | firmware/esp32/follower/Nex_Arm/AiLLMControl.cpp:150-164 | left alone, the transactions of one write end with the frame READY under the next generation with its length and XOR |
| `Mailbox.UninterruptedRead` | firmware/esp32/follower/Nex_Arm/AiLLMControl.cpp:166-189 | left alone, the transactions of one read empty the slot and answer with the code and bytes `ReadOutcome` gives; for the grabber's reader if the generation is new |
| `Bits.XorIsBitwise` | firmware/esp32/follower/Nex_Arm/AiLLMControl.cpp:157-157 | bit i of the exclusive or of two bytes is set if and only if their bits i differ |
| `Bits.XorAllIsParity` | firmware/esp32/follower/Nex_Arm/AiLLMControl.cpp:156-157 | bit i of a check byte is the parity of the bytes that have it set |
| `Bits.XorNotices` | firmware/esp32/follower/Nex_Arm/AiLLMControl.cpp:185-187 | changing any one byte changes the check byte |
| `CheckBytes.DamagedSlotIsRefused` | firmware/esp32/follower/Nex_Arm/AiLLMControl.cpp:180-188 | a READY frame is returned; with any one byte changed the read answers -1, the colour grabber's 0 |
| `CheckBytes.WritesAreChecked` | firmware/esp32/follower/Nex_Arm/AiLLMControl.cpp:150-164 | what an uninterrupted write leaves is such a frame, and each bit of the posted check byte is a parity of the frame's bytes |
| `CheckBytes.DamagedFrameIsDropped` | firmware/esp32/follower/Nex_Arm/AiLLMControl.cpp:738-760 | with any one byte changed, other than the two of the length, an encoded frame is dropped by the parser |
| `WireFormats.SlotIsReadFrom` | firmware/esp32/follower/Nex_Arm/AiLLMControl.cpp:107-118 | the bytes of the mailbox a slot's state, generation, length, check byte and data are read from, high byte first |
| `WireFormats.MetaIsWrittenTo` | firmware/esp32/follower/Nex_Arm/AiLLMControl.cpp:120-128 | the eight bytes metadata are written to, state codes 0, 1 and 2, and that no other byte changes |
| `WireFormats.DataAreWrittenTo` | firmware/esp32/follower/Nex_Arm/AiLLMControl.cpp:74-86 | a data transaction stores the next bytes of the frame, 30 or all that are left, and nothing else |
| `WireFormats.ReadsAreShort` | firmware/esp32/follower/Nex_Arm/AiLLMControl.cpp:88-103 | a data transaction of a read takes 32 bytes, the colour grabber's 30, or what is left |
| `WireFormats.FrameIsWrittenAs` | firmware/esp32/follower/Nex_Arm/AiLLMControl.cpp:205-217 | the bytes of a protocol frame, from AA 55 to the parity bits of its check byte |
| `WireFormats.PacketIsWrittenAs` | firmware/examples/ros2/ros_robot_controller_sdk.py:105-110 | the bytes of a serial packet, from FF FF to the byte that makes the sum 255 modulo 256 |
| `WireFormats.PacketsAreNeeded` | firmware/esp32/follower/Nex_Arm/AT32_OTA.cpp:178-178 | an image takes the least number of packets of 128 bytes that hold it |
| `WireFormats.DataPacketIs` | firmware/esp32/follower/Nex_Arm/AT32_OTA.cpp:180-194 | the bytes of a firmware packet: index low byte first, its 128 bytes of the image or the rest, FF up to a whole word |
| `MailboxMemory.MetaRoundTrip` | firmware/esp32/follower/Nex_Arm/AiLLMControl.cpp:107-128 | the 8 metadata bytes decode to the metadata that was encoded |
| `MailboxMemory.StoreRefinesApply` | firmware/esp32/follower/Nex_Arm/AiLLMControl.cpp:74-86 | storing bytes at the offsets of one direction does to its slot what the slot model says, and nothing to the opposite slot or to the header |
| `MailboxMemory.DuplexStepRefines` | firmware/esp32/follower/Nex_Arm/AiLLMControl.cpp:150-189 | on the shared bytes an event moves its own direction exactly as alone and leaves the other unchanged |
| `MailboxMemory.DirectionsDoNotInterfere` | firmware/esp32/follower/Nex_Arm/AiLLMControl.cpp:150-189 | for every interleaving of both directions each one runs as if it were alone |
| `MailboxMemory.DuplexDeliversExactlyOnce` | firmware/esp32/follower/Nex_Arm/AiLLMControl.cpp:130-189 | on the raw 4096 bytes with both directions active, delivery in either direction is in order, exactly once and byte for byte |
| `MailboxPort.Port.I2cWrite16` | firmware/esp32/follower/Nex_Arm/AiLLMControl.cpp:74-86 | 30-byte transactions together replace exactly the addressed bytes |
| `MailboxPort.Port.I2cRead16` | firmware/esp32/follower/Nex_Arm/AiLLMControl.cpp:88-103 | 32-byte transactions together return exactly the addressed bytes |
| `MailboxPort.Port.ReadSlotMeta` | firmware/esp32/follower/Nex_Arm/AiLLMControl.cpp:107-118 | returns the metadata of the slot |
| `MailboxPort.Port.WriteSlotMeta` | firmware/esp32/follower/Nex_Arm/AiLLMControl.cpp:120-128 | changes the metadata of this slot and nothing of the other |
| `MailboxPort.Port.InitMailbox` | firmware/esp32/follower/Nex_Arm/AiLLMControl.cpp:130-148 | succeeds if and only if the magic matches and two slots of the announced size fit; then takes over both generations, otherwise leaves them |
| `MailboxPort.Port.WriteHostSlot` | firmware/esp32/follower/Nex_Arm/AiLLMControl.cpp:150-164 | succeeds if and only if the frame fits and the slot is EMPTY; the slot afterwards is the one `Mailbox.UninterruptedWrite` derives, otherwise unchanged |
| `MailboxPort.Port.ReadDevSlot` | firmware/esp32/follower/Nex_Arm/AiLLMControl.cpp:166-189 | answers 0, -1 or the frame as `Mailbox.UninterruptedRead` derives; a READY slot is emptied and its generation remembered, any other is untouched |
| `MailboxPort.Port.GrabberReadDevSlot` | firmware/esp32/follower/Nex_Arm/ColorGrabber.cpp:110-130 | the colour grabber's version: answers 0 or the frame; a READY slot is emptied only if its generation is new, otherwise it is left as it is |
| `FrameCodec.CtrlRoundTrip` | firmware/esp32/follower/Nex_Arm/AiLLMControl.cpp:761-764 | kind, continuation bit and 5-bit number are recovered from the control byte |
| `FrameCodec.DecodeEncode` | firmware/esp32/follower/Nex_Arm/AiLLMControl.cpp:205-217 | a built frame passes the checks of `parseFrame` and yields the fields it was built from |
| `Fragments.NeverOverflows` | firmware/esp32/follower/Nex_Arm/AiLLMControl.cpp:771-791 | whatever frames arrive in whatever order, the reassembly buffer never holds more than 2048 bytes |
| `Fragments.RestArrives` | firmware/esp32/follower/Nex_Arm/AiLLMControl.cpp:771-800 | a receiver waiting inside a message collects the remaining fragments, sequence wraps included, and dispatches the whole |
| `Fragments.TailArrives` | firmware/esp32/follower/Nex_Arm/AiLLMControl.cpp:771-801 | an idle receiver turns the fragments from any offset on into a message of just that tail, so losing a head goes unnoticed |
| `Fragments.ConversationArrives` | firmware/esp32/follower/Nex_Arm/AiLLMControl.cpp:219-273 | for any requests of at most 2040 bytes, slot size, starting transaction and sequence numbers, the fragments of successful sends reassemble to exactly the requests, in order, leaving the receiver idle |
| `Fragments.FramesArrive` | firmware/esp32/follower/Nex_Arm/AiLLMControl.cpp:728-801 | the same through the bytes of `buildFrame` and the checks of `parseFrame` |
| `Fragments.AfterAnAbortedSend` | firmware/esp32/follower/Nex_Arm/AiLLMControl.cpp:250-265 | what becomes of the command after a send that gave up after k fragments of max bytes, in every case: unless it looks like the continuation it loses exactly its first fragment; otherwise it is appended to the k * max bytes collected, or lost up to the fragment that overruns the buffer |
| `Fragments.NextCallDoesNotContinue` | firmware/esp32/follower/Nex_Arm/AiLLMControl.cpp:193-197 | the next call of the same sender has another transaction number and so never looks like the continuation |
| `Fragments.FirstSendsContinueIff` | firmware/esp32/follower/Nex_Arm/AiLLMControl.cpp:291-296 | after a restart, which resets both counters, a first send continues the first send given up before exactly if it has the same function and a multiple of 32 fragments had gone out |
| `Fragments.MaxPayload` | firmware/esp32/follower/Nex_Arm/AiLLMControl.cpp:229-229 | a full fragment fills the slot, or the 2048 bytes of the buffer if the slot is larger |
| `Fragments.FragmentIs` | firmware/esp32/follower/Nex_Arm/AiLLMControl.cpp:234-270 | fragment i of a command carries exactly the bytes from i * max on, max of them and the continuation mark unless it is the last; numbers are consecutive modulo 32 |
| `Fragments.PiecesAreNeeded` | firmware/esp32/follower/Nex_Arm/AiLLMControl.cpp:234-270 | there are as many fragments as the payload needs, and one for an empty payload |
| `Fragments.StrayFragmentResets` | firmware/esp32/follower/Nex_Arm/AiLLMControl.cpp:779-783 | a fragment of another kind, function, transaction or number than the one waited for ends the message, and both are lost |
| `Fragments.FittingFragmentIsTaken` | firmware/esp32/follower/Nex_Arm/AiLLMControl.cpp:785-801 | the one waited for is taken if and only if 2048 bytes hold it |
| `FragmentLink.Link.AdvanceTxn` | firmware/esp32/follower/Nex_Arm/AiLLMControl.cpp:193-197 | transaction numbers step through 1..255 without 0 |
| `FragmentLink.Link.AdvanceNumber` | firmware/esp32/follower/Nex_Arm/AiLLMControl.cpp:199-203 | returns the old 5-bit number and steps it modulo 32 |
| `FragmentLink.Link.SendCmd` | firmware/esp32/follower/Nex_Arm/AiLLMControl.cpp:219-273 | refuses slots of at most 8 and payloads over 2040 bytes without touching a counter; otherwise writes a prefix of the command's fragments, all of them if and only if it succeeds, and advances the counters accordingly |
| `FragmentLink.Link.SendFragment` | firmware/esp32/follower/Nex_Arm/AiLLMControl.cpp:234-270 | one round of the loop sends the fragment at the offset and says where the next begins |
| `FragmentLink.Link.ParseFrame` | firmware/esp32/follower/Nex_Arm/AiLLMControl.cpp:737-801 | the reassembly fields, the in-place buffer and the dispatches change exactly as the specification's `Parse` |
| `EndToEnd.ConversationIsLegal` | firmware/esp32/follower/Nex_Arm/AiLLMControl.cpp:175-175 | every frame of a conversation has a length the mailbox reader hands on |
| `EndToEnd.PostedAreSent` | firmware/esp32/follower/Nex_Arm/AiLLMControl.cpp:219-273 | what is posted is what the sender's accepted, uncut calls wrote |
| `EndToEnd.RequestsArriveInOrder` | firmware/esp32/follower/Nex_Arm/AiLLMControl.cpp:130-273 | if the accepted calls write the frames that `sendCmd` makes, then over the raw mailbox, at every moment and for every interleaving of both directions, the messages understood are the first requests in order, and all of them once everything is written and the slot is empty |
| `SerialFrames.ChecksumNotices` | firmware/examples/ros2/ros_robot_controller_sdk.py:62-63 | changing one byte always changes the check byte |
| `SerialFrames.CollectsContent` | firmware/examples/ros2/ros_robot_controller_sdk.py:141-165 | after the two header bytes, id, length, command and data are collected whatever their values, FF included |
| `SerialFrames.ChunksDoNotMatter` | firmware/examples/ros2/ros_robot_controller_sdk.py:136-141 | how the byte stream is cut into reads makes no difference to what is dispatched |
| `SerialFrames.PacketArrives` | firmware/examples/ros2/ros_robot_controller_sdk.py:105-110 | an encoded packet within the parser's limit is dispatched exactly once and the parser is back at the start |
| `SerialFrames.ArrivesIffWithinLimit` | firmware/examples/ros2/ros_robot_controller_sdk.py:150-156 | an encoded packet is the one dispatched if and only if its length byte is within the limit |
| `SerialFrames.StreamArrives` | firmware/examples/ros2/ros_robot_controller_sdk.py:136-169 | of any mix of frames, damaged frames and FF-free noise exactly the undamaged packets are dispatched, in order |
| `SerialFrames.StreamArrivesInChunks` | firmware/examples/ros2/ros_robot_controller_sdk.py:136-169 | the same for any way of cutting the bytes into reads |
| `SerialFrames.DamageIsNoticed` | firmware/examples/ros2/ros_robot_controller_sdk.py:166-169 | a frame with one changed id, command, data or check byte is not dispatched and the parser is back at the start at its end |
| `SerialFrames.Resynchronises` | firmware/examples/ros2/ros_robot_controller_sdk.py:141-169 | from every reachable state, `limit + 2` consecutive bytes other than FF (254 here) bring the parser back to the start |
| `SerialFrames.BoundIsAttained` | firmware/examples/ros2/ros_robot_controller_sdk.py:141-169 | one byte less is not enough: a concrete frame opening keeps the parser inside for that long |
| `SerialFrames.ReceivesAfterQuiet` | firmware/examples/ros2/ros_robot_controller_sdk.py:141-169 | after that many quiet bytes the next frame gets through, whatever came before |
| `SerialPorts.Board.BufWrite` | firmware/examples/ros2/ros_robot_controller_sdk.py:105-110 | puts the encoded packet on the wire, for every data length a length byte can announce |
| `SerialPorts.Board.Receive` | firmware/examples/ros2/ros_robot_controller_sdk.py:140-169 | one pass of the receive loop changes the parser fields and dispatches exactly as the automaton with limit 252 |
| `SerialPorts.CommProtocol.Parsing` | firmware/esp32/follower/Nex_Arm/CommProtocol.cpp:40-88 | the firmware's parser, storing arguments in place, is the same automaton with limit 250 |
| `SerialPorts.CommProtocol.TxPacketComplete` | firmware/esp32/follower/Nex_Arm/CommProtocol.cpp:26-38 | for every 8-bit data length: the packet is the same encoding and all of it is inside the 250-byte argument array, and the 8-bit length returned is the packet's, if and only if there are at most 249 data bytes |
| `SerialPorts.LongestFrames` | firmware/esp32/follower/Nex_Arm/CommProtocol.cpp:58-62 | the two ends disagree on the longest frame: the SDK's parser takes exactly the packets of up to 250 data bytes, the firmware's exactly those of up to 248 |
| `WaitReply.Reader.ReadByte` | firmware/esp32/follower/Nex_Arm/AT32_OTA.cpp:28-64 | one byte changes the local variables exactly as the waiter's step and never indexes past the 16-byte buffer |
| `WaitReply.WaitForReply` | firmware/esp32/follower/Nex_Arm/AT32_OTA.cpp:13-67 | the loop returns the waiter's answer and the bytes read for it |
| `WaitReply.SkipsExactly` | firmware/esp32/follower/Nex_Arm/AT32_OTA.cpp:28-31 | the skip counter consumes exactly the rest of an oversized frame |
| `WaitReply.ReturnsTheFirstReply` | firmware/esp32/follower/Nex_Arm/AT32_OTA.cpp:13-67 | on any stream of frames with length byte 2 to 255, damaged frames and FF-free noise, returns the arguments of the first intact frame with the awaited command and a length of at most 16, having read exactly to its end, and stays aligned across all the others |
| `WaitReply.AgreesWithTheGeneralParser` | firmware/esp32/follower/Nex_Arm/AT32_OTA.cpp:13-67 | its answer is the first fitting packet that the SDK's or the firmware's parser dispatches from the same bytes |
| `WaitReply.CallersArraySufficesIff` | firmware/esp32/follower/Nex_Arm/AT32_OTA.cpp:57-60 | the 8-byte array that every caller passes holds the answer if and only if the length byte of the answering frame is at most 10; the function itself answers with up to 14 bytes |
| `WaitReply.CallersArrayCanBeTooShort` | firmware/esp32/follower/Nex_Arm/AT32_OTA.cpp:57-60 | it need not: any frame with the awaited command and 9 to 14 data bytes is returned whole |
| `Firmware.SendImage` | firmware/esp32/follower/Nex_Arm/AT32_OTA.cpp:175-212 | sends every packet of the image once, in order; shows the percentages of packets 0, 10, 20 and so on and of the last, which never go back, never exceed 100 and end at 100 |
| `Firmware.ShownIs` | firmware/esp32/follower/Nex_Arm/AT32_OTA.cpp:202-206 | the a-th percentage shown is that of packet 10 * a |
| `Firmware.PayloadIsWritten` | firmware/esp32/follower/Nex_Arm/AT32_OTA.cpp:181-194 | packet `i` carries exactly its stretch of the image padded with FF to whole words |
| `Firmware.PercentGrows` | firmware/esp32/follower/Nex_Arm/AT32_OTA.cpp:203-203 | the percentage is at most 100, does not decrease, and is 100 at the last packet |
| `Firmware.FirstBlocks` | firmware/esp32/follower/Nex_Arm/AT32_OTA.cpp:180-194 | the first packets write exactly the first blocks; what lies behind is untouched |
| `Firmware.ImageIsRebuilt` | firmware/esp32/follower/Nex_Arm/AT32_OTA.cpp:177-194 | for every image of up to 65536 packets, placing each packet at its decoded index times 128 writes the image followed by at most three FF bytes, and nothing else |
| `Firmware.RebuiltExactlyWhenIndexed` | firmware/esp32/follower/Nex_Arm/AT32_OTA.cpp:190-191 | the image is rebuilt if and only if it has at most 65536 packets, on a flash that does not already hold the first byte no packet reaches |
| `Firmware.BeyondTheIndexNothingIsWritten` | firmware/esp32/follower/Nex_Arm/AT32_OTA.cpp:190-191 | the 16-bit index cannot reach beyond 8 MiB for any image |
| `Firmware.TransferOverTheLink` | firmware/esp32/follower/Nex_Arm/AT32_OTA.cpp:196-197 | image to flash through frame encoding and any parser of the serial format that takes 130 data bytes |
| `Dataset.RunAttempts` | examples/nexarm/generate_sim_dataset.py:454-513 | the attempt loop stops at the first attempt count at which enough episodes were accepted or the budget is spent; rows, seeds and rejections are those of the attempts made |
| `Dataset.MadeIsWhatTheLoopMakes` | examples/nexarm/generate_sim_dataset.py:466-466 | the loop condition alone determines the number of attempts |
| `Dataset.MadeAccepts` | examples/nexarm/generate_sim_dataset.py:466-466 | the attempts made accept as many as asked for, or all that the budget allows |
| `Dataset.RejectionsAre` | examples/nexarm/generate_sim_dataset.py:466-497 | the report lists exactly the rejected attempts, with their seeds and reasons |
| `Dataset.RowsContinue` | examples/nexarm/generate_sim_dataset.py:497-497 | accepted rows are numbered consecutively behind the existing episodes, rejected ones not at all |
| `Dataset.SplitIsFair` | examples/nexarm/sim_dataset_utils.py:555-556 | episodes per worker add up to the request, differ by at most one, and are at least one each |
| `Dataset.WorkerAttemptsIsLeast` | examples/nexarm/sim_dataset_utils.py:557-557 | a worker may attempt the least number that is enough for its episodes and, for all workers together, for the budget |
| `Dataset.MergeLogs` | examples/nexarm/sim_dataset_utils.py:623-629 | the merge loop appends every shard's rows with their indices moved behind everything before, and ends with the number of episodes |
| `Dataset.MergeKeepsNumbering` | examples/nexarm/sim_dataset_utils.py:623-633 | merging consistent shards keeps the numbering gapless and log and seed lists aligned, attempts included |
| `Dataset.MergeShardsIsConsistent` | examples/nexarm/sim_dataset_utils.py:608-638 | the merged dataset has the episode indices 0..N-1, each once, in log order, a report that agrees with the log, and all rows there were |
| `Dataset.MergedReport` | examples/nexarm/sim_dataset_utils.py:633-637 | the merged report asks for what was asked for before and now, and counts all attempts and rejections |
| `Dataset.ConsistentCounts` | examples/nexarm/sim_dataset_utils.py:330-334 | in a consistent dataset accepted plus rejected is attempts |
| `Dataset.CombineIsAssociative` | examples/nexarm/sim_dataset_utils.py:322-335 | folding reports is associative in every merged field and refused in the same cases |
| `Dataset.CombineOfTwo` | examples/nexarm/sim_dataset_utils.py:322-335 | two reports fold to the sums of their counts, their lists one after the other, the last one's rest and the rate of the whole |
| `Dataset.CombineKeepsBalance` | examples/nexarm/sim_dataset_utils.py:322-335 | folding balanced reports gives a balanced report |
| `SeedPlan.NextSeed` | examples/nexarm/sim_dataset_utils.py:132-135 | the least seed that is at least the fallback and above everything logged |
| `SeedPlan.ShardStart` | examples/nexarm/sim_dataset_utils.py:431-432 | a shard starts right behind the highest seed logged in its block, or at the block's start |
| `SeedPlan.PlanShardSeeds` | examples/nexarm/sim_dataset_utils.py:419-440 | returns the starts of all shards if and only if every seed that any shard may attempt is in its block of 100,000 and in the split |
| `SeedPlan.ValidRangeIff` | examples/nexarm/sim_dataset_utils.py:123-129 | a range is valid if and only if all its seeds are in the split: train below one million, eval from there on |
| `SeedPlan.PlanFitsIff` | examples/nexarm/sim_dataset_utils.py:428-438 | the same for a plan: its checks hold if and only if no shard may leave its block or the split |
| `SeedPlan.OneShardIsFresh` | examples/nexarm/sim_dataset_utils.py:428-438 | a shard's attempts stay in its block and split and avoid everything logged |
| `SeedPlan.ShardSeedsAreFresh` | examples/nexarm/sim_dataset_utils.py:419-440 | the shards' attempts are pairwise disjoint, distinct, never a logged seed, and on the run's side of the split |
| `SeedPlan.OwnRunIsAligned` | examples/nexarm/generate_sim_dataset.py:466-513 | a single process logs consecutive seeds, numbers its episodes behind the existing ones and reports what it logged |
| `GenerationHistory.EveryRunIsSound` | examples/nexarm/sim_dataset_utils.py:123-135 | every fresh, resumed, sharded, refused or aborted run attempts distinct seeds that are not logged yet, and leaves a consistent dataset that only grew |
| `GenerationHistory.SingleIsSound` | examples/nexarm/sim_dataset_utils.py:242-252 | the same for a single process with the default seed start |
| `GenerationHistory.ShardedIsSound` | examples/nexarm/sim_dataset_utils.py:555-638 | the same for shards, merged or kept for inspection |
| `GenerationHistory.HistoriesAreSound` | examples/nexarm/sim_dataset_utils.py:123-135 | over any history of runs with changing kinds and worker counts no seed is ever logged twice and the log is never rewritten |
| `GenerationHistory.TrainAndEvalNeverMeet` | examples/nexarm/sim_dataset_utils.py:123-129 | a train run and an eval run never attempt the same seed, on whatever datasets |
| `GenerationHistory.MergedSeeds` | examples/nexarm/sim_dataset_utils.py:623-630 | the merged log holds the old seeds followed by those of the shards in order |
| `GenerationHistory.MergedRunDeliversTheRequest` | examples/nexarm/sim_dataset_utils.py:555-638 | a sharded run that merges adds exactly the requested number of episodes, numbered 0 to the new total without gaps |
| `GenerationHistory.LaunchesIff` | examples/nexarm/sim_dataset_utils.py:215-254 | a run is launched if and only if its request is positive and within its budget, the joint mapping is the dataset's, and every seed it may attempt is in its split and block |
| `GenerationHistory.FreshRunLaunchesIff` | examples/nexarm/sim_dataset_utils.py:215-254 | a fresh run with the default start is launched if and only if, in the train split, its seeds end at one million and no shard needs more than 100,000; an eval run starts at one million |
| `GenerationHistory.DefaultStart` | examples/nexarm/sim_dataset_utils.py:241-247 | without a seed start, seeds begin at the split's base; a single process that resumes begins at the first one behind everything logged |
| `GenerationHistory.ShardsAreSized` | examples/nexarm/sim_dataset_utils.py:554-557 | as many shards as workers but no more than episodes; their shares add up to the request and their budgets are the least that are enough |
| `GenerationHistory.SingleAttempts` | examples/nexarm/generate_sim_dataset.py:454-513 | a launched process attempts consecutive seeds from its first one on, as many as the loop makes |
| `GenerationHistory.ShardedAttempts` | examples/nexarm/sim_dataset_utils.py:419-440 | a launched sharded run attempts exactly the seeds from each shard's start on, as many as its loop makes |
| `GenerationHistory.SingleRunDelivers` | examples/nexarm/sim_dataset_utils.py:132-135 | a launched process logs all it attempted behind what was there and keeps what it accepted, numbered on |
| `GenerationHistory.MergesIff` | examples/nexarm/sim_dataset_utils.py:600-606 | the shards are merged if and only if each can accept its share within its budget; otherwise the dataset stays as it is |
| `ResumeSwap.StepInv` | examples/nexarm/sim_dataset_utils.py:617-649 | every file-system step, whether it works, stops halfway or fails, and every crash keep the invariant on the three directories |
| `ResumeSwap.RecoveryRestoresTheLastCommit` | examples/nexarm/sim_dataset_utils.py:447-451 | after any number of resumes, each ending or crashing after any step, recovery leaves the last committed dataset at `root`: complete, consistent, holding the rows of every earlier one |
| `ResumeSwap.VersionsNeverGoBackwards` | examples/nexarm/sim_dataset_utils.py:640-649 | what recovery yields at `root` after a run and any continuation of it holds every row of what it would have yielded before the continuation |
| `ResumeSwap.RootIsNeverPartial` | examples/nexarm/sim_dataset_utils.py:617-649 | `root` is never a partial dataset, and if it is missing the backup is complete |
| `ResumeSwap.ResumesAreCarriedThrough` | examples/nexarm/sim_dataset_utils.py:454-649 | from every state between resumes, however the last one ended: if the merge goes through and the operations work, root and last commit become the merged dataset and the rest is cleared away; if only the second rename fails, root is again what was committed last |
| `ResumeSwap.SwapSteps` | examples/nexarm/sim_dataset_utils.py:640-649 | the swap taken step by step leaves the disk that `SwapIn` leaves as a whole, with the rollback too |
| `ResumeSwap.RecoveryOnlyRenames` | examples/nexarm/sim_dataset_utils.py:447-451 | recovery loses and invents no directory |
| `ResumeSwap.CrashesAndFailuresEnd` | examples/nexarm/sim_dataset_utils.py:617-649 | a crash, an unexpected failure, and a rename onto a directory that is still there end the process and change nothing else |
| `ResumeSwap.HalfwayIsPartial` | examples/nexarm/sim_dataset_utils.py:617-649 | what a removal or a build leaves when it stops halfway |
| `ResumeSwap.Directories.RecoverInterruptedResume` | examples/nexarm/sim_dataset_utils.py:447-451 | brings the backup back exactly if `root` is missing |
| `ResumeSwap.Directories.SwapIn` | examples/nexarm/sim_dataset_utils.py:640-649 | the two renames put the merged dataset in place, or put the old one back if the second fails, and leave no backup |
| `ColorStack.StartIsOnPlan` | firmware/esp32/follower/Nex_Arm/ColorGrabber.cpp:194-265 | a successful start takes over at most eight colours and establishes the run invariant, from any earlier state |
| `ColorStack.StartOrders` | firmware/esp32/follower/Nex_Arm/ColorGrabber.cpp:194-265 | what `start` orders and where its search begins, whether or not the mailbox answers and another run is stopped |
| `ColorStack.SearchesBeginAtHome` | firmware/esp32/follower/Nex_Arm/ColorGrabber.cpp:534-546 | every later search begins at home too, with the arm sent there and nothing remembered of the last block |
| `ColorStack.StepIsOnPlan` | firmware/esp32/follower/Nex_Arm/ColorGrabber.cpp:462-560 | every call of `update` keeps colours, counters, stack heights, order of stages and gripper in step |
| `ColorStack.StepIsInBounds` | firmware/esp32/follower/Nex_Arm/ColorGrabber.cpp:427-428 | every call keeps the target within 120 of S_X and within 300 in Y, all elapsed times non-negative and the stability counter at no more than 301 |
| `ColorStack.PhaseEndsIff` | firmware/esp32/follower/Nex_Arm/ColorGrabber.cpp:472-530 | a call ends a timed phase if and only if it comes more than 100, 2500, 800, 1500, 1800 or 1000 ms after its beginning |
| `ColorStack.BlocksTakeTheirTime` | firmware/esp32/follower/Nex_Arm/ColorGrabber.cpp:472-530 | in every run each phase of a block begins no earlier than the dwell times before it allow, counted from the decision to go down |
| `ColorStack.BlocksEndNoEarlier` | firmware/esp32/follower/Nex_Arm/ColorGrabber.cpp:472-530 | the arm is back for the next block more than 7.7 s after that decision |
| `ColorStack.RunsFollowThePlan` | firmware/esp32/follower/Nex_Arm/ColorGrabber.cpp:462-558 | in every uninterrupted run of one to eight colours, the colours are targeted once each in list order and each block takes six orders: jaws down open, closed, raised to 220 where they closed, to (PLACE_X, PLACE_Y, PLACE_Z + 30 k), opened 40 above, home; the stack equals the index until release and is one ahead until the next search, and the run ends with the stack at the colour count |
| `ColorStack.StacksTheRequestIff` | firmware/esp32/follower/Nex_Arm/ColorGrabber.cpp:197-202 | a finished run has stacked as many blocks as asked for if and only if that was one to eight; asked for none it stacks one, of the colour left in the first slot |
| `ColorStack.RunsCanFinish` | firmware/esp32/follower/Nex_Arm/ColorGrabber.cpp:462-558 | from every state of a run some timely calls with the block in view bring it to its end |
| `ColorStack.EveryRunCanFinish` | firmware/esp32/follower/Nex_Arm/ColorGrabber.cpp:194-558 | so, as far as the machine goes and with reports as input, every run of one to eight colours, wherever it stands, can go on to the end and then has stacked them all; what the mailbox must do for that is `GrabberLink.FinishableIff` |
| `ColorSearch.SearchStep` | firmware/esp32/follower/Nex_Arm/ColorGrabber.cpp:396-412 | what one call does to the stability timer, and that a centred target is not moved |
| `ColorSearch.WhatAReportDoes` | firmware/esp32/follower/Nex_Arm/ColorGrabber.cpp:343-435 | what else a report that counts does: errors forgotten without the block, locked on in the middle, nothing near the middle of a locked target, tracking otherwise |
| `ColorSearch.TimerIsHonest` | firmware/esp32/follower/Nex_Arm/ColorGrabber.cpp:396-412 | a running stability timer was started by a centred report and nothing since contradicted it or moved the target |
| `ColorSearch.DownNeedsThreeSteadySeconds` | firmware/esp32/follower/Nex_Arm/ColorGrabber.cpp:396-411 | DOWN is entered only at a centred report at least 3000 ms after another one with every report that counted in between centred, and the grab point is the target of that whole time |
| `ColorSearch.ThreeSteadySecondsSuffice` | firmware/esp32/follower/Nex_Arm/ColorGrabber.cpp:396-411 | conversely such a stretch always leads to DOWN |
| `ColorSearch.CorrectionsPointAtTheBlock` | firmware/esp32/follower/Nex_Arm/ColorGrabber.cpp:421-428 | with a derivative gain small against the proportional one, an axis that is off centre is corrected towards the block or already at its limit |
| `ColorSearch.TrackMoves` | firmware/esp32/follower/Nex_Arm/ColorGrabber.cpp:421-428 | the picture's rows move the arm's x and its columns y, each by its correction and within its reach |
| `ColorSearch.CorrectionIs` | firmware/esp32/follower/Nex_Arm/ColorGrabber.cpp:421-424 | a correction is kp times the error plus kd times its change, which counts up to 40 |
| `ColorSearch.ArmFollowsUnlessThrottled` | firmware/esp32/follower/Nex_Arm/ColorGrabber.cpp:427-434 | one call leaves the arm commanded to the target if and only if it does not move the target within 40 ms of the last move |
| `ColorSearch.OnlyMovesGiveOrders` | firmware/esp32/follower/Nex_Arm/ColorGrabber.cpp:427-434 | a correction 40 ms or more after the last move brings the arm to the target wherever it was; no other call gives an order |
| `ColorSearch.SinceTheLastMove` | firmware/esp32/follower/Nex_Arm/ColorGrabber.cpp:427-434 | since the last such call of a search nothing was ordered, and it left the arm on the target |
| `ColorSearch.GrabbedWhereTheArmIsIff` | firmware/esp32/follower/Nex_Arm/ColorGrabber.cpp:402-434 | a whole search that ends in DOWN grabs where the arm was last sent if and only if the target is where the last move left it, that is if the corrections held back since then come to nothing |
| `ColorSearch.UnthrottledTargetStays` | firmware/esp32/follower/Nex_Arm/ColorGrabber.cpp:427-434 | in particular if none was held back since the last move |
| `ColorSearch.OneHeldBackCorrection` | firmware/esp32/follower/Nex_Arm/ColorGrabber.cpp:420-434 | if exactly one was, at the gains of `CorrectionsPointAtTheBlock`, the arm is on the target if and only if that correction rested on both axes: an axis off centre was at its limit on the block's side, one inside the deadband there or with nothing to correct |
| `ColorSearch.ThrottledMoveIsLost` | firmware/esp32/follower/Nex_Arm/ColorGrabber.cpp:430-434 | they need not: a concrete run grabs at y = 6.4 with the arm last sent to 5.2 |
| `ColorDescent.DescentKeepsTheOffset` | firmware/esp32/follower/Nex_Arm/ColorGrabber.cpp:474-483 | the descent is beside the grab point by the calibration offset turned, not stretched: its first component along the bearing, its second to the left of it |
| `ColorDescent.ClosesWhereItDescendsIff` | firmware/esp32/follower/Nex_Arm/ColorGrabber.cpp:471-498 | in every reachable DOWN state, with the bearing computed from the grab point, the jaws close where they went down if and only if the grab point lies straight ahead (y is 0) or there is no calibration offset, because the grab does not turn the offset |
| `ColorDescent.JawsCanCloseElsewhere` | firmware/esp32/follower/Nex_Arm/ColorGrabber.cpp:471-498 | a concrete run reaches a grab point of (208, 8.16), where any offset makes them differ |
| `Grabber.ColorGrabber.Start` | firmware/esp32/follower/Nex_Arm/ColorGrabber.cpp:194-265 | the fields after `start` are those of the specification, whether or not the mailbox answers |
| `Grabber.ColorGrabber.Hold` | firmware/esp32/follower/Nex_Arm/ColorGrabber.cpp:397-410 | the stability branch |
| `Grabber.ColorGrabber.Pursue` | firmware/esp32/follower/Nex_Arm/ColorGrabber.cpp:420-434 | the tracking branch, with the throttled move |
| `Grabber.ColorGrabber.HandleColor` | firmware/esp32/follower/Nex_Arm/ColorGrabber.cpp:343-435 | the report handler changes the fields as the specification |
| `Grabber.ColorGrabber.Update` | firmware/esp32/follower/Nex_Arm/ColorGrabber.cpp:462-569 | `update` changes the fields as one step of the specification |
| `ColorReport.FindBlock` | firmware/esp32/follower/Nex_Arm/ColorGrabber.cpp:348-389 | the scan of a report, on any bytes, stays in the payload and computes the specified result |
| `ColorReport.FindBlobs` | firmware/esp32/follower/Nex_Arm/ColorGrabber.cpp:375-386 | its inner loop |
| `ColorReport.ReportsAreUnderstood` | firmware/esp32/follower/Nex_Arm/ColorGrabber.cpp:348-389 | on every well-formed report the scan finds the first plausible blob of the first matching group that has one |
| `ColorReport.NothingIffNotOffered` | firmware/esp32/follower/Nex_Arm/ColorGrabber.cpp:382-389 | nothing is found if and only if no group of the colour, by its first 31 characters and without regard to case, has a blob under 280 by 200 |
| `ColorReport.MatchesIff` | firmware/esp32/follower/Nex_Arm/ColorGrabber.cpp:358-373 | a name without zeros matches if and only if its first 31 characters are those wanted, letters in either case |
| `ColorReport.CStringIs` | firmware/esp32/follower/Nex_Arm/ColorGrabber.cpp:358-360 | of a name with zeros only what stands before the first one counts |
| `ColorFrames.DetectionsAreUnderstood` | firmware/esp32/follower/Nex_Arm/ColorGrabber.cpp:439-458 | a detection frame, from header to kind and function, is taken for the first plausible blob of the wanted colour, or for none |
| `ColorFrames.OtherFrames` | firmware/esp32/follower/Nex_Arm/ColorGrabber.cpp:439-458 | a bounding-box report without boxes is that, and frames of any other kind or function are nothing |
| `ColorFrames.NoFrame` | firmware/esp32/follower/Nex_Arm/ColorGrabber.cpp:439-442 | so is everything without a header or shorter than it says |
| `ColorFrames.RunOnFramesIsARun` | firmware/esp32/follower/Nex_Arm/ColorGrabber.cpp:439-569 | a run on the bytes the mailbox yields is a run on the reports in them, each read for the colour then wanted |
| `ColorFrames.FramesFollowThePlan` | firmware/esp32/follower/Nex_Arm/ColorGrabber.cpp:439-569 | whatever bytes the camera sends, a run of one to eight colours follows the plan |
| `GrabberLink.StuckIsSilent` | firmware/esp32/follower/Nex_Arm/ColorGrabber.cpp:110-112 | on a stuck device slot no call of `update` ever hears a frame |
| `GrabberLink.SilenceIsSearch` | firmware/esp32/follower/Nex_Arm/ColorGrabber.cpp:462-569 | a grabber that hears nothing searches on and gives no order |
| `GrabberLink.MatchesIffNameable` | firmware/esp32/follower/Nex_Arm/ColorGrabber.cpp:365-374 | a colour matches some reported name if and only if it has at most 31 characters and no zero, and then its own |
| `GrabberLink.UnnameableIsNotSeen` | firmware/esp32/follower/Nex_Arm/ColorGrabber.cpp:348-389 | of a colour that does not, no frame whatever is taken for a sighting |
| `GrabberLink.UnnameableIsNotPassed` | firmware/esp32/follower/Nex_Arm/ColorGrabber.cpp:343-558 | so a run never gets past the search for it |
| `GrabberLink.StalledStartNeverFinishes` | firmware/esp32/follower/Nex_Arm/ColorGrabber.cpp:110-215 | a run started while the device slot is not EMPTY never gets past its first search, whatever traffic and calls follow |
| `GrabberLink.FinishableIff` | firmware/esp32/follower/Nex_Arm/ColorGrabber.cpp:110-569 | with reports coming through the mailbox, a run of one to eight colours can be finished if and only if the device slot is EMPTY when `start` initialises the mailbox and every colour can be reported |
| `FollowPath.MinJerkAdvances` | examples/nexarm/generate_stack_bowls_dataset.py:328-331 | minimum-jerk progress is monotone on [0,1] and its chords never exceed slope 15/8 |
| `FollowPath.MinJerkRange` | examples/nexarm/generate_stack_bowls_dataset.py:328-331 | it runs from 0 to 1 and its second half mirrors the first |
| `FollowPath.ChordIsTheSlope` | examples/nexarm/generate_stack_bowls_dataset.py:328-331 | between any two times progress changes by the time passed times the chord's slope |
| `FollowPath.SlopeIs` | examples/nexarm/generate_stack_bowls_dataset.py:328-331 | which at a single time t is 30 t^2 (1 - t)^2: at rest at both ends, 15/8 in the middle |
| `FollowPath.StepsAreLeast` | examples/nexarm/generate_stack_bowls_dataset.py:415-415 | the number of commands is the one asked for or the least that makes 25 ticks each |
| `FollowPath.InsideSegment` | examples/nexarm/generate_stack_bowls_dataset.py:417-420 | within its segment, which contains the distance, each joint has moved in proportion to the distance covered |
| `FollowPath.PathIsLipschitz` | examples/nexarm/generate_stack_bowls_dataset.py:416-420 | in every joint the path moves at most as far as its distance advances, across any number of waypoints, plus less than 1e-9 if it leaves a segment shorter than that; short segments passed whole cost nothing |
| `FollowPath.SweepIsSmooth` | examples/nexarm/generate_stack_bowls_dataset.py:415-420 | consecutive commands of the sweep differ in every joint by at most (15/8) * 25 * N / (N - 1) ticks, plus less than 1e-9 if the first lies in a segment shorter than that |
| `FollowPath.SweepStartsHere` | examples/nexarm/generate_stack_bowls_dataset.py:416-420 | the sweep starts at the current pose, whatever the waypoints |
| `FollowPath.SweepEndsThere` | examples/nexarm/generate_stack_bowls_dataset.py:416-420 | with two or more commands it ends where the path does; with one it never leaves the start |
| `FollowPath.PathEndsThere` | examples/nexarm/generate_stack_bowls_dataset.py:418-420 | the path ends at the last waypoint if and only if the last segment is empty or at least 1e-9 long |
| `FollowPath.PlanReachesTheLastWaypoint` | examples/nexarm/generate_stack_bowls_dataset.py:411-431 | an undisturbed call of two or more steps pauses at the last waypoint, and its sweep ends there if and only if the last segment is empty or at least 1e-9 long |
| `FollowPath.Follow` | examples/nexarm/generate_stack_bowls_dataset.py:404-438 | the commands given are those of the plan up to and including the one after which the simulation reports the end; a path without length gives none |
| `SplineTiming.SaferIsSound` | examples/nexarm/bspline/rollout_sim.py:59-64 | repaired knots are non-decreasing, never lowered, and raised only to step 1e-6 past a higher predecessor |
| `SplineTiming.SaferKeepsIffOrdered` | examples/nexarm/bspline/rollout_sim.py:59-64 | knots are left alone if and only if they were in order |
| `SplineTiming.SaferTwice` | examples/nexarm/bspline/rollout_sim.py:59-64 | the repair is idempotent |
| `SplineTiming.SaferKnots` | examples/nexarm/bspline/rollout_sim.py:59-64 | the in-place loop computes the specified repair on a copy |
| `SplineTiming.GripperSlowdown.NextRate` | examples/nexarm/bspline/rollout_sim.py:86-96 | the rate depends only on the steps since the last gripper change, across replans, and the changes are counted |
| `SplineTiming.RampIsExact` | examples/nexarm/bspline/rollout_sim.py:89-96 | k quiet steps after a change the rate is 1 + min(k, ramp) / ramp * (speed_up - 1), whatever came before |
| `SplineTiming.RateWithoutChange` | examples/nexarm/bspline/rollout_sim.py:90-96 | before any change the rate is full speed |
| `SplineTiming.ChangesAre` | examples/nexarm/bspline/rollout_sim.py:90-92 | the slow steps counted are the changes |
| `SplineTiming.RateIsBetween` | examples/nexarm/bspline/rollout_sim.py:86-96 | the rate is between 1 and the speed-up |
| `SplineTiming.EvaluationTimes` | examples/nexarm/bspline/rollout_sim.py:112-115 | the loop makes exactly the schedule its rates determine and advances the slow-down once per evaluation |
| `SplineTiming.ScheduleStaysInside` | examples/nexarm/bspline/rollout_sim.py:112-115 | at rates of at least 1 the schedule is non-decreasing and inside the domain |
| `SplineTiming.ScheduleIsHeldBack` | examples/nexarm/bspline/rollout_sim.py:112-115 | no evaluation is before the domain's start or before its own time, and each is at one of the two |
| `SplineTiming.EvaluationsAreMade` | examples/nexarm/bspline/rollout_sim.py:113-113 | evaluation i is made if and only if there is a step for it and its own time is within the domain |
| `SplineTiming.ElapsedIsTheSum` | examples/nexarm/bspline/rollout_sim.py:112-115 | its own time is 1 plus the rates of the steps before it |
| `SplineTiming.ScheduleIsUnique` | examples/nexarm/bspline/rollout_sim.py:112-115 | the rates determine the schedule, its length included |
| `SplineTiming.SteadySchedule` | examples/nexarm/bspline/rollout_sim.py:112-115 | without slow-down the i-th time is max(1 + i * speed_up, t_start) |
| `SplineTiming.GraspsAreApproachedSlowly` | examples/nexarm/bspline/rollout_sim.py:86-115 | with slow-down a chunk has at least as many evaluations, none of them later |
| `SplineTiming.ChunksAreEvaluatedInside` | examples/nexarm/bspline/rollout_sim.py:107-118 | a chunk is evaluated between 1 and n_steps times, at non-decreasing times inside the spline's domain |
| `SplineTiming.DecodeTimes` | examples/nexarm/bspline/rollout_sim.py:99-118 | refuses too few knots, otherwise evaluates at the schedule, or at the domain's end if that is empty |
| `McNemar.McNemarIsTheTwoSidedTest` | experiments/261027-plan-bind-two-step/episode_stats.py:31-37 | for all counts the result is the sum of C(n,k)/2^n over all k with abs(2k-n) >= abs(b-c), and the cap at 1 changes it if and only if b = c |
| `McNemar.PValueRange` | experiments/261027-plan-bind-two-step/episode_stats.py:31-37 | the p-value is in (0, 1] |
| `McNemar.CombCountsOutcomes` | experiments/261027-plan-bind-two-step/episode_stats.py:36-36 | the binomial coefficient counts the outcomes with k wins |
| `McNemar.OutcomesAreAll` | experiments/261027-plan-bind-two-step/episode_stats.py:32-32 | the enumerated outcomes are all of them, each once |
| `McNemar.PValueIsAShareOfOutcomes` | experiments/261027-plan-bind-two-step/episode_stats.py:31-37 | the result is the share of equally likely outcomes at least as lopsided as the observed one |
| `McNemar.DiscordantDifference` | experiments/261027-plan-bind-two-step/episode_stats.py:22-28 | the discordant counts differ by exactly the difference of wins and together fit the episodes |
| `McNemar.ComparisonIsOfTheRates` | experiments/261027-plan-bind-two-step/episode_stats.py:48-56 | cells compare if and only if they have the same episodes, at least one; the difference from the discordant counts is that of the success rates and p is the exact test's |
| `McNemar.ComparisonCounts` | experiments/261027-plan-bind-two-step/episode_stats.py:22-28 | the counts are of the episodes that one policy alone won, and the difference is in percentage points |
| `McNemar.ComparisonIsAntisymmetric` | experiments/261027-plan-bind-two-step/episode_stats.py:48-56 | swapping the policies negates the difference and keeps p |
| `UrdfFrames.FrameLoop` | plans/261019-1440-nexarm-cad-home-pose/repose_models.py:205-213 | the loop ends on every list of joints with the fixpoint the specification defines |
| `UrdfFrames.SettleIsSound` | plans/261019-1440-nexarm-cad-home-pose/repose_models.py:206-213 | the fixpoint keeps every frame, derives each from a simple path and leaves no joint to apply, also when the loop ends by its count |
| `UrdfFrames.BaseIsTheOrigin` | plans/261019-1440-nexarm-cad-home-pose/repose_models.py:205-205 | base_link keeps the zero frame on every list of joints, even if a joint leads to it |
| `UrdfFrames.FrameHasPath` | plans/261019-1440-nexarm-cad-home-pose/repose_models.py:208-211 | every frame is the sum of joint origins along a simple path from base_link |
| `UrdfFrames.PathSumIs` | plans/261019-1440-nexarm-cad-home-pose/repose_models.py:211-211 | each coordinate of that sum is the sum of the joints' coordinates |
| `UrdfFrames.FramesAreReachableLinks` | plans/261019-1440-nexarm-cad-home-pose/repose_models.py:206-213 | the links with frames are exactly those reachable from base_link |
| `UrdfFrames.TreePathIsUnique` | plans/261019-1440-nexarm-cad-home-pose/repose_models.py:205-213 | in a tree a link has one path from base_link |
| `UrdfFrames.TreeFrames` | plans/261019-1440-nexarm-cad-home-pose/repose_models.py:205-213 | in a tree every reachable link's frame is the sum along its unique path |
| `UrdfFrames.TreeFramesIgnoreTheOrder` | plans/261019-1440-nexarm-cad-home-pose/repose_models.py:205-213 | in a tree the frames do not depend on the order of the joints |
| `UrdfFrames.OrderIsIrrelevantIffPathsAgree` | plans/261019-1440-nexarm-cad-home-pose/repose_models.py:205-213 | for any joints, the order is irrelevant if and only if simple paths to the same link have equal sums |
| `UrdfFrames.PathFirst` | plans/261019-1440-nexarm-cad-home-pose/repose_models.py:208-211 | listing a simple path first makes it the one that counts |
| `UrdfFrames.ReadFailsIffRotated` | plans/261019-1440-nexarm-cad-home-pose/repose_models.py:195-202 | reading fails if and only if a joint between two links has a rotated frame |
| `UrdfFrames.ReadKeepsTheLast` | plans/261019-1440-nexarm-cad-home-pose/repose_models.py:203-204 | joint names are unique and stand for the links and origin of their last definition, zero without an origin |
| `UrdfFrames.UrdfFramesOf` | plans/261019-1440-nexarm-cad-home-pose/repose_models.py:193-214 | the whole function: the refusal, or the frames and joints |

## Left out

- FramesArrive: for sends that are not nested. The busy-wait of `sendCmd` can dispatch a frame whose handler sends
  again and so interleaves fragments; the theorem is about calls that do not.
- ConversationArrives: for frames that all arrive in order. What a lost tail does is `Fragments.AfterAnAbortedSend`,
  what a lost head does is `Fragments.TailArrives`.
- InOrderExactlyOnce: assumes the header is not rewritten while the link is up, and that the peer follows the same
  code.
- RequestsArriveInOrder: for a reader that does not restart and calls that no writer restart cuts off; what those do is
  `Mailbox.RestartLosesTheFrameInTheSlot` and `Mailbox.PostedAreTheAcceptedCalls`.
- SendCmd: how often the busy-wait polls and how long it waits is one number, the fragments the slot takes.
- StreamArrives: noise between frames contains no FF; with FF in it a false header can swallow a frame.
- WaitForReply: the timeout is the end of the bytes given.
- TransferOverTheLink: the bootloader's side, which is not part of this repository, is taken to store each packet at
  its index; erase, verification and version queries around the packet loop are not modelled.
- Receive: the bounded queues behind the dispatch, which drop packets when full, and the receive enable flag.
- TxPacketComplete: what happens to the memory behind the packet when the data do not fit.
- Parsing: the success and error callbacks, and a callback that calls the parser again.
- EveryRunIsSound: a single process that resumes uses the default seed start; an explicit `--seed-start` is outside
  the run model.
- RecoveryRestoresTheLastCommit: about resumes; a fresh sharded run writes to `root` directly. The file system is
  three paths with whole-directory renames, and nothing else touches them.
- RunAttempts: a crash between appending a log row and saving its episode is outside the run model.
- CombineIsAssociative: for the merged fields, the mapping check and "the last report supplies the rest"; the
  contents of the rest are one opaque value.
- RunsFollowThePlan: for runs that are not stopped or restarted. `millis` does not wrap, arithmetic is exact, and the
  states that only the heartbeat handler enters are passed inside `start`.
- RunsCanFinish: that a run can end, not that it does; whether the camera keeps the block in view is not modelled.
- EveryRunCanFinish: takes the reports as input. If they have to come through the mailbox, the device slot must have
  been EMPTY at `start` and the colours reportable: `GrabberLink.FinishableIff`.
- FinishableIff: for slots of at least 52 bytes, so that the report of one block fits. The commands that `start` sends
  to the camera, and the grabber's own writer, which announces no length while WRITING and lets generations pass
  through 0, are not modelled; the camera's writer is.
- GrabberReadDevSlot: for frames that fit the slot, which is all a writer announces (`Mailbox.ReadyFitsTheSlot`).
- CorrectionsPointAtTheBlock: about one correction; convergence of the closed loop depends on the camera.
- SweepStartsHere: the current pose is taken as read; what the arm does with a command is not modelled.
- DecodeTimes: SciPy's own refusals beyond the number of knots, its evaluation of the spline, and float32 rounding.
- McNemarIsTheTwoSidedTest: in exact arithmetic; `math.comb` is Pascal's recursion.
- UrdfFramesOf: parsing XML and text; joint elements are the input, and whether a frame is rotated is a flag.
- Simulators, IK, rendering, cameras, policies, teleoperation, BLE, ESP-NOW, plotting, uploads and command lines.
- The other copies of the mailbox code: the calibration grabber reads as the colour grabber does, the AprilTag, face,
  gesture, garbage, colour-rotation and self-learning code as the language-model control does.
- The Wilson interval and the formatting of p-values: they would add only easy members.
