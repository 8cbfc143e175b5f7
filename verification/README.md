# Verified model of the Helpz message layer

Helpz sends messages between peers over an unreliable datagram link. A message that is
too long for one packet is announced and then fetched in fragments; packets carry an
8-bit message id by which repeats are filtered and losses are noticed; a message that
expects an answer waits in a list until an answer, a query or a timeout takes it out.
This project models that layer in Dafny, together with three smaller parts of the same
repository: deleting a database row with the rows that refer to it, writing the
placeholders of an insert statement, and reading and replacing a parameter in a text.

`dafny verify dfyconfig.toml` checks the whole project.

## How the model is laid out

Objects that the source changes in place are classes (`FragmentedMessage`, `MessageItem`,
`StreamReader`, `Filter`, `List`, `Thread`, `Helper`); each method is proved against a
function on values, and the statements about whole runs are lemmas over these functions.

| file | what it holds |
|---|---|
| `Options.dfy`, `Bytes.dfy` | missing values, bytes, big-endian integers, writing into a device |
| `Parts.dfy` | lists of missing byte ranges: subtraction, canonical form |
| `FragmentedMessage.dfy` | the reassembly object and its in-place range loop; confluence |
| `Framing.dfy` | frame header, stream scanner, buffering across datagrams |
| `Packets.dfy` | outgoing messages, packet encoder, field decoder, packet round trip |
| `Reassembly.dfy` | what a fragment does to the receiver's entry |
| `Transfer.dfy` | sender, link, id filter and receiver together: end-to-end correctness |
| `Progress.dfy` | which packets pass the filter; bound on the number of exchanges without loss |
| `Resending.dfy` | queries and timeouts of the sender, and what becomes of resent packets |
| `IdFilter.dfy`, `IdRuns.dfy`, `LostLedger.dfy` | the id filter, its runs, the list of skipped ids as a ledger |
| `Delivery.dfy` | single-packet messages through encoder, filter and decoder, as bytes |
| `TimeMap.dfy`, `WaitingList.dfy`, `Ownership.dfy`, `WaitingEvents.dfy` | maps ordered by time, the waiting list, ownership in all runs, what each event does and which callbacks run |
| `ProtocolTimer.dfy` | the timer thread in all interleavings |
| `DeleteRow.dfy`, `CascadeDelete.dfy`, `CascadeLevels.dfy` | the delete helper, order of its statements, effect on the rows at every depth |
| `Settings.dfy` | trimming, get and set of a parameter |
| `Placeholders.dfy` | the in-place placeholder writer |

Time is an argument of every step, in milliseconds. Each region that the source runs
under a lock is one step. The checksum and the compressor are parameters: a 16-bit
checksum, and a compressor that the decompressor inverts and whose output stays within
the bound that the library allocates for it. The link is a set from which any packet can
be taken any number of times. Whether a message with an answer handler waits for an
answer is an input of each receipt, and so is whether a handler throws.

## What turned out

- The range loop subtracts exactly the given range even for an empty or reversed range; it
  keeps the list of parts well formed if and only if the range is proper or falls inside no
  part. No fragment that can be received breaks the list: a fragment whose end wraps at 32
  bits lies behind every part and leaves the list as it is (`FragmentKeepsForm`).
- A query for the whole message is answered by a plain packet, so the message is handed
  on while its entry stays (`DeliveryAndEntry`). If it is an answer that nobody awaits it is
  dropped instead, while the same answer would be handed on had it come in fragments.
- A resent announcement is REPEATED, and a receiver that saw no gap drops it. On a link that
  then loses nothing and replies within 10 seconds, a message is handed on if and only if
  its announcement is not REPEATED or its id has a fresh entry in the list of skipped ids,
  and it is no answer, or is awaited, or does not fit into the first window
  (`LosslessTransfer`). A transfer of REPEATED packets that pauses for 10 seconds stands still
  until the receiver's timeout enters the id again (`NotOnTime`).
- A packet of another message can cost a message its reassembly entry although it is fresh:
  if and only if it reveals a gap, has an id below 100, and the id of the message that loses
  its entry is in the list and among the 155 ids after that one (`OtherPacket`).
- The 8-bit counter follows a gap if and only if it is at most 155 modulo 256, does not
  wrap, or ends just before the counter. A packet without the REPEATED flag that belongs
  to an older message, as a fragment does, moves the counter unless it is at most 100
  behind without a wrap, or is the last one.
- A packet without the REPEATED flag that was overtaken by less than 100 messages without a
  wrap strikes its id from the list, so no copy passes after it; exactly 100 behind it does
  not (`LatePacket`). If a copy came first, the overtaken packet passes as well
  (`CopyThenOvertaken`).
- Beyond one cycle of ids a copy can pass on the entry of another message with the same
  id (`AliasPassesTwice`); it cannot if no other message with its id was skipped in the
  last 10 seconds. That condition is on the traffic alone and is sufficient, not necessary:
  whether the other entry is still there when the copy comes depends on which other copies
  and purges met it before, that is, on the whole run of the filter.
- Dropping a packet after a failed scan keeps the datagram sizes in step with the buffer
  if and only if no datagram had been consumed before. Frames split over two datagrams with
  a bad header behind them put them out of step, and the next such datagram makes the code
  read the front of an empty queue (`SizesDrift`). A datagram that meets an empty buffer
  keeps them in step, unless a handler throws on a last frame without payload
  (`SettleAlone`).
- From the third level of a delete tree on, rows are selected by the parent's reference
  instead of by the parent's removal, and references can dangle (`ThirdLevelDangles`). At
  every depth a level is right if and only if, for every key its rows refer to, a parent row
  with that key carries the root's id exactly if one is removed (`LevelExact`).
- For no fields per row the placeholder loop stays in its buffer and repeats "),(?".
- A parameter that does not occur in a text is reported as present if and only if there
  is a '=' at or after the length of its name minus one.

## Model

| member | source | states |
|---|---|---|
| `Parts.CutMissing` | Network/net_fragmented_message.cpp:74-173 | subtracting [start, end) removes exactly these bytes from the missing ones, for every list and every pair of bounds |
| `Parts.CutWellFormed` | Network/net_fragmented_message.cpp:74-173 | the list stays ascending, non-empty per part and separated if the range is proper or straddled by no part |
| `Parts.CutBreaksWellFormed` | Network/net_fragmented_message.cpp:115-143 | an empty or reversed range inside a part destroys the form, so the condition is exact |
| `Parts.Canonical` | Network/net_fragmented_message.cpp:26 | two well-formed lists that miss the same bytes are equal |
| `FragmentedMessage.FragmentedMessage.constructor` | Network/net_fragmented_message.cpp:11-27 | at first exactly the bytes below the full size are missing |
| `FragmentedMessage.FragmentedMessage.CutAt` | Network/net_fragmented_message.cpp:90-171 | one turn of the loop leaves of the part exactly what the range does not cover and tells how to go on |
| `FragmentedMessage.FragmentedMessage.WalkPartVect` | Network/net_fragmented_message.cpp:74-173 | the whole in-place loop terminates and equals the part-by-part subtraction |
| `FragmentedMessage.FragmentedMessage.RemoveFromPartVect` | Network/net_fragmented_message.cpp:74-173 | exactly the range stops being missing; well formed afterwards if and only if proper or not straddled |
| `FragmentedMessage.FragmentedMessage.AddData` | Network/net_fragmented_message.cpp:66-72 | data are written at their position and exactly their bytes stop being missing, for every position, though the end is computed modulo 2^32 |
| `FragmentedMessage.FragmentedMessage.IsPartsEmpty` | Network/net_fragmented_message.cpp:175-178 | true exactly if no byte is missing |
| `FragmentedMessage.FragmentedMessage.GetNextPart` | Network/net_fragmented_message.cpp:180-193 | a non-empty range of missing bytes within the window |
| `FragmentedMessage.NextPart` | Network/net_fragmented_message.cpp:180-193 | the part starts at the first missing byte and ends at the window or at a received byte |
| `FragmentedMessage.FragmentKeepsForm` | Network/net_fragmented_message.cpp:66-72 | every fragment that can be received keeps the list well formed and removes exactly its bytes; one whose end wraps changes nothing |
| `FragmentedMessage.CutAllMissing` | Network/net_protocol.cpp:529-533 | after any fragments in any order exactly the bytes that none carries are missing |
| `FragmentedMessage.Confluence` | Network/net_fragmented_message.cpp:66-173 | the list depends only on the union of the fragments |
| `FragmentedMessage.ReorderingAndDuplication` | Network/net_fragmented_message.cpp:66-173 | any reordering or repetition of the same fragments gives the identical list |
| `Framing.FlagsRoundTrip` | Network/net_protocol.h:46-56 | the flag byte determines the flags |
| `Framing.HeadLayout` | Network/net_protocol.cpp:152-157 | for every frame: order of the header fields, one bit per flag, high byte of the size first |
| `Framing.FrameRoundTrip` | Network/net_protocol.cpp:286-343 | the scanner returns the frame that was encoded, whatever follows it |
| `Framing.ScanExtends` | Network/net_protocol.cpp:286-343 | more bytes never change a verdict other than incomplete |
| `Framing.ScanExact` | Network/net_protocol.cpp:288-343 | what the bytes of a header lead to: oversized, corrupt in whichever checksum byte, incomplete, or accepted; equivalences |
| `Framing.AcceptedIsEncoded` | Network/net_protocol.cpp:288-343 | an accepted frame is what the sender writes for it, byte for byte, up to unused flag bits and the null size |
| `Framing.CorruptFails` | Network/net_protocol.cpp:323-334 | a header with a wrong checksum is never handed on and makes the scan fail where it is |
| `Framing.OversizedDrops` | Network/net_protocol.cpp:310-322 | a size beyond the limit drops everything, with whatever checksum |
| `Framing.ThrowFails` | Network/net_protocol.cpp:341-357 | a handler that throws makes the scan fail behind the header of its frame, which does not count as handed on |
| `Framing.DrainInTwo` | Network/net_protocol.cpp:262-362 | scanning a prefix and then its remainder with the rest equals scanning at once |
| `Framing.ChunkingIndependence` | Network/net_protocol.cpp:205-260 | for every well-formed stream and every division into datagrams, the messages and the kept bytes depend only on the concatenation, and the sizes add up to the kept bytes |
| `Framing.StreamDelivery` | Network/net_protocol.cpp:205-260 | sent frames in any datagrams come out as the same frames in order, the partial frame stays buffered, and the sizes add up to it |
| `Framing.DropFailedSum` | Network/net_protocol.cpp:229-240 | when a drop is defined, and when it keeps sizes and buffer in step: equivalences |
| `Framing.SettleCovered` | Network/net_protocol.cpp:205-260 | whatever arrives, the sizes never speak of more bytes than the buffer has |
| `Framing.TakeAligned` | Network/net_protocol.cpp:205-260 | as long as no scan fails, oversized headers included, sizes and buffer stay in step |
| `Framing.SettleAlone` | Network/net_protocol.cpp:222-260 | a datagram that meets an empty buffer: its frames up to a failure come out and the rest of it is dropped; when this is not defined: an equivalence |
| `Framing.SizesDrift` | Network/net_protocol.cpp:229-240 | three datagrams: after two, nine bytes stay in the buffer that no size speaks of; with the third the front of an empty queue is read |
| `Framing.StreamReader.ProcessStream` | Network/net_protocol.cpp:262-362 | hands on complete frames, drops everything on an oversized header, fails on a bad checksum or behind the header of a frame whose handler throws, waits otherwise |
| `Framing.StreamReader.ForgetConsumed` | Network/net_protocol.cpp:246-260 | the consumed bytes and the sizes they cover go; sizes that added up to the buffer still do |
| `Framing.StreamReader.ScanAndDrop` | Network/net_protocol.cpp:222-260 | the loop of scans and drops ends in the specified state, or where the front of an empty queue is read |
| `Framing.StreamReader.DropFailedPacket` | Network/net_protocol.cpp:229-240 | defined exactly if a size is left; sizes and buffer stay in step if and only if no datagram was consumed before the failure |
| `Framing.StreamReader.ProcessBytes` | Network/net_protocol.cpp:205-260 | for every datagram the new state is the specified one; without a failed scan its frames come out in order, the partial frame stays and the sizes add up; after an empty buffer exactly when it is defined, and then the sizes add up |
| `Packets.ContentRoundTrip` | Network/net_protocol.cpp:493-532 | full size, position, announced window and slice are read back |
| `Packets.ParseBody` | Network/net_protocol.cpp:484-498 | with or without answer id the fields of a packet are read back |
| `Packets.UnpackPacket` | Network/net_protocol.cpp:457-472 | no packet is compressed or a fragment with empty data, and unpacking restores the data |
| `Packets.UnpackExact` | Network/net_protocol.cpp:457-472 | which frames are rejected, and what is read from the others |
| `Packets.BodySize` | Network/net_protocol.cpp:105-141 | how many bytes a packet has before compression |
| `Packets.CompressedWhen` | Network/net_protocol.cpp:143-147 | a packet is compressed if and only if it has more bytes than the limit of its message |
| `Packets.BodyLayout` | Network/net_protocol.cpp:105-131 | answer id, full size and position come in this order |
| `Packets.PacketRoundTrip` | Network/net_protocol.cpp:102-157 | id, command, flags, answer id, full size, position and slice survive encoding and decoding |
| `Packets.ClampFragmentSize` | Network/net_message_item.cpp:33-42 | the nearest size from 32 to 65490 |
| `Packets.MessageItem.constructor` | Network/net_message_item.cpp:11-16 | default sizes; the device stands at its end, as the sender leaves it, so a long message is announced first |
| `Packets.MessageItem.SetFragmentSize` | Network/net_message_item.cpp:33-42 | the size is clamped |
| `Packets.MessageItem.AddRawData` | Network/net_protocol.cpp:196-203 | appends at most the given number of bytes at the position and moves behind them |
| `Packets.MessageItem.BuildData` | Network/net_protocol.cpp:105-141 | the data of the packet and the device position after reading them |
| `Packets.MessageItem.AssignId` | Network/net_protocol.cpp:149-150 | an id is taken once, from a counter that wraps at 256 |
| `Packets.MessageItem.PreparePacket` | Network/net_protocol.cpp:87-157 | the bytes are the encoding of the message as it was; id and position are updated |
| `Reassembly.AbsorbFragment` | Network/net_protocol.cpp:518-595 | for every fragment the object becomes what the value function says, with the delivery and the next query, and stays well formed |
| `Reassembly.FirstWindowIs` | Network/net_protocol.cpp:512-516 | the announced size unless it is missing or more than a packet can carry |
| `Reassembly.AbsorbHonest` | Network/net_protocol.cpp:529-533 | a genuine fragment keeps every received byte equal to the source |
| `Reassembly.CompleteIsSource` | Network/net_protocol.cpp:539-565 | with nothing missing the device is the source byte for byte |
| `Reassembly.OnFragmentHonest` | Network/net_protocol.cpp:493-565 | one fragment keeps the entry honest, and a delivery is the source |
| `Transfer.HandlePacket` | Network/net_protocol.cpp:457-622 | behind the filter the bytes of a packet are treated as the message they were cut from; a plain answer is handed on only if it is awaited |
| `Transfer.ArriveOwn` | Network/net_protocol.cpp:418-622 | scanner, filter and handler on the bytes of a packet; while bytes are missing the id is in the list of skipped ids with the time of the last fragment |
| `Transfer.ControlPackets` | Network/net_protocol.cpp:474-482 | removals, queries and pings are not handed on; a removal closes the entry of the id it names and no other |
| `Transfer.TooBigMessage` | Network/net_protocol.cpp:502-509 | a fragment of a message that is too big costs the entry |
| `Transfer.ReactHonest` | Network/net_protocol.cpp:474-622 | any packet of the message leaves an honest entry or delivers the source |
| `Transfer.NextKeepsInv` | Network/net_protocol.cpp:624-706 | every step of sender, link and receiver keeps the invariant |
| `Transfer.EndToEnd` | Network/net_protocol.cpp:418-622 | in every run with loss, repetition, reordering, filtering, other messages, stale queries, timeouts and lost entries, everything delivered is the message sent |
| `Progress.PiecesIsCeiling` | Network/net_fragmented_message.cpp:185-190 | the number of fragments needed is the quotient rounded up |
| `Progress.ReplyCovers` | Network/net_protocol.cpp:624-633 | the reply covers the part asked for and is a fragment unless the whole message was asked for |
| `Progress.OwnPacket` | Network/net_protocol.cpp:384-455 | when a packet of the message passes the filter, and when it costs the message its entry: equivalences, for every state of the filter |
| `Progress.OtherPacket` | Network/net_protocol.cpp:384-455 | when a packet of another message costs the message its entry: an equivalence |
| `Progress.GrowKeeps` | Network/net_protocol.cpp:576-581 | without a timeout the window rises by a fifth, rounded down, to its limit |
| `Progress.TimeoutKeepsFetching` | Network/net_protocol.cpp:655-668 | a timeout halves the window down to 128 and enters an id that is not in the list; the bound goes on to hold |
| `Progress.ExchangeIsRun` | Network/net_protocol.cpp:420-633 | an exchange on time is three steps of the transfer, and enters the id with its time |
| `Progress.ExchangeProgress` | Network/net_protocol.cpp:529-607 | one exchange completes the message or lowers the number of fragments still needed; asked for as a whole, it is handed on exactly if it is no answer or is awaited |
| `Progress.BoundedTransfer` | Network/net_protocol.cpp:420-595 | from any state that is on time the receiver's own queries bring the message within the number of fragments the missing parts are worth, REPEATED or not, and nothing is handed on before |
| `Progress.NotOnTime` | Network/net_protocol.cpp:420-439 | REPEATED packets without a fresh entry get a transfer no further, however often the receiver asks |
| `Progress.NeverHandedOn` | Network/net_protocol.cpp:599-607 | an answer that nobody awaits and that is asked for as a whole is not handed on, whenever its replies arrive |
| `Progress.AnnouncementOpensEntry` | Network/net_protocol.cpp:420-523 | an announcement opens an entry if and only if it is not REPEATED or its id has a fresh entry in the list |
| `Progress.LosslessTransfer` | Network/net_protocol.cpp:418-633 | N bytes announced with fragment size f arrive within ceil(N/f) of the receiver's queries if replies are less than 10 s apart; handed on if and only if the announcement passes the filter and the message is no answer, awaited, or longer than the first window |
| `Progress.DeliveryAndEntry` | Network/net_protocol.cpp:105-116 | delivery ends the entry except when the whole message was asked for at once; then it is handed on exactly if it is no answer or is awaited |
| `Resending.ResendHalves` | Network/net_protocol.cpp:692-696 | a timeout of the sender sets REPEATED and halves the fragment size, but not below 32 |
| `Resending.SenderInRun` | Network/net_protocol.cpp:624-706 | in every run the flag is set exactly if there was a timeout, and the fragment size stays until the next timeout or query |
| `Resending.SentPacketFlag` | Network/net_protocol.cpp:102-157 | in every run a packet scans to a REPEATED frame if and only if the message had the flag at first or a timeout came before |
| `Resending.ResentIsDropped` | Network/net_protocol.cpp:420-439 | a resent packet whose id has no fresh entry in the list changes neither the entry nor what was handed on |
| `Resending.QueryMoves` | Network/net_protocol.cpp:624-633 | a query moves the message inside it and sets the fragment size; one at or behind the end changes nothing |
| `Resending.NextSlice` | Network/net_protocol.cpp:196-203 | packets without a query in between carry one slice after the other, then an announcement again |
| `Resending.FragmentAndList` | Network/net_protocol.cpp:567-573 | a fragment enters its id with its time while bytes are missing, and not when it completes the message |
| `Resending.PacketCarries` | Network/net_protocol.cpp:196-203 | a packet carries at most the fragment size, and a full one inside the message |
| `IdFilter.StaleWindow` | Network/net_protocol.cpp:380-389 | the window test drops an id only for message ids below 100, and then those up to 155 ahead |
| `IdFilter.Filter.constructor` | Network/net_protocol.cpp:11-18 | counter zero, nothing skipped |
| `IdFilter.Filter.IsLostMessage` | Network/net_protocol.cpp:364-374 | true exactly for an entry younger than 10 s, which is gone afterwards in any case |
| `IdFilter.Filter.PurgeLost` | Network/net_protocol.cpp:384-409 | exactly the stale entries go, and with them their reassembly entries |
| `IdFilter.Filter.FillLostMsg` | Network/net_protocol.cpp:376-416 | ends at the message id after at most 155 steps with the list as specified |
| `IdFilter.Filter.AdmitMessage` | Network/net_protocol.cpp:418-455 | state and verdict of the filter |
| `IdRuns.FillExact` | Network/net_protocol.cpp:376-416 | no entry is older than 10 s; the list is the fresh entries with their stamps and the entered ids stamped now |
| `IdRuns.FillEntersSkipped` | Network/net_protocol.cpp:411-415 | exactly the skipped ids are entered, across the wrap too; a longer gap without wrap enters its last 100 |
| `IdRuns.CounterExact` | Network/net_protocol.cpp:420-455 | for gaps of every size, when the counter is right afterwards: an equivalence |
| `IdRuns.LatePacket` | Network/net_protocol.cpp:420-440 | an unflagged packet behind the counter without a wrap passes and leaves the counter; less than 100 behind it strikes its id from the list, exactly 100 behind it changes nothing |
| `IdRuns.Gap156NotFollowed` | Network/net_protocol.cpp:443-454 | a wrapped gap of 156 is not followed, so 155 is tight |
| `IdRuns.OldPacketAndCounter` | Network/net_protocol.cpp:420-455 | when an unflagged packet of an older message leaves the counter alone: an equivalence |
| `IdRuns.CounterRefinement` | Network/net_protocol.cpp:411-455 | in every run with gaps of at most 155, copies and overtaken packets interleaved, the counter is the true expected number modulo 256 |
| `IdRuns.SmallGapsAreRegular` | Network/net_protocol.cpp:411-455 | first transmissions in order with gaps of at most 155 meet what the at-most-once result asks of traffic |
| `IdRuns.AtMostOnce` | Network/net_protocol.cpp:364-455 | of a message that has passed a further packet passes if and only if it is an overtaken one without the flag, in any run in which no copy meets a fresh entry of another message with its id |
| `IdRuns.AtMostOnceInOneCycle` | Network/net_protocol.cpp:364-455 | over one cycle of ids this needs no condition on gaps or times |
| `IdRuns.OvertakenThenCopy` | Network/net_protocol.cpp:420-440 | after an overtaken packet has passed no copy of its message does |
| `IdRuns.CopyThenOvertaken` | Network/net_protocol.cpp:420-440 | if the copy comes first both pass |
| `IdRuns.AliasTrafficIsRegular` | Network/net_protocol.cpp:364-455 | the counterexample has first transmissions in order and gaps of at most 155 |
| `IdRuns.AliasPassesTwice` | Network/net_protocol.cpp:364-455 | beyond one cycle a message and its copy can both pass |
| `LostLedger.Balance` | Network/net_protocol.cpp:364-455 | what one event does to the entry of one id; a REPEATED packet passes exactly by consuming a fresh entry |
| `LostLedger.Ledger` | Network/net_protocol.cpp:364-416 | per id and run, entered = consumed + purged + present, and recovered packets do not exceed consumed entries |
| `LostLedger.StampOrigin` | Network/net_protocol.cpp:570-573 | a stamp is the time at which its entry was entered or last refreshed, and the entry was there ever since |
| `LostLedger.RecoveredIsFresh` | Network/net_protocol.cpp:420-440 | a REPEATED packet that passes consumes an entry made or refreshed less than 10 s before |
| `Delivery.ReceivePacket` | Network/net_protocol.cpp:418-607 | on the bytes of a single-packet message the receiver takes the filter's decision and hands on the message itself, unless it is an answer that nobody awaits |
| `Delivery.DeliveredContent` | Network/net_protocol.cpp:418-622 | in every run what is handed on is what was sent under that number; a packet without the flag is handed on if and only if it is no answer or is awaited |
| `Delivery.DeliveredOnce` | Network/net_protocol.cpp:364-455 | of a message that was handed on no copy is handed on again, and only an overtaken packet is, in a run in which no copy meets a fresh entry of another message with its id |
| `Delivery.DeliveredOnceInOneCycle` | Network/net_protocol.cpp:364-455 | for up to 256 messages this holds whatever is lost and whenever copies arrive |
| `WaitingList.List.PopWaitingMessage` | Network/net_protocol.cpp:747-759 | takes out the first match and nothing else |
| `WaitingList.List.PopWaitingAnswer` | Network/net_protocol.cpp:735-739 | an answer takes out the message with its id and its command if there is one, and nothing else |
| `WaitingList.List.PopWaitingFragment` | Network/net_protocol.cpp:741-745 | a query takes out the message with its id if there is one, and nothing else |
| `WaitingList.List.AddToWaiting` | Network/net_protocol.cpp:708-716 | the message becomes the only entry of its id and all other entries stay; it is stored if and only if no entry of another id has its time |
| `WaitingList.EnlistMeaning` | Network/net_protocol.cpp:708-716 | the list stays ascending with one entry per id; exactly which entries it then has |
| `WaitingList.List.PopWaitingMessages` | Network/net_protocol.cpp:718-733 | takes exactly the entries due within 20 ms, in order |
| `Ownership.WaitUntilIsFirst` | Network/net_protocol.cpp:176-184 | the earlier of resend time and end time |
| `Ownership.EnterListIsEnlist` | Network/net_protocol.cpp:708-716 | the list in the runs changes as the in-place insert changes it |
| `Ownership.EnterKeeps` | Network/net_protocol.cpp:708-716 | entering the list keeps one holder per message and one entry per id |
| `Ownership.FinishCalls` | Network/net_message_item.cpp:18-25 | letting a message go keeps the rules for its callbacks |
| `Ownership.ExpireKeeps` | Network/net_protocol.cpp:684-706 | processing the due entries resends or ends each of them once |
| `Ownership.NextKeeps` | Network/net_protocol.cpp:545-643 | every event keeps the invariant |
| `Ownership.OneEntryPerId` | Network/net_protocol.cpp:708-716 | in every run at most one entry per id |
| `Ownership.ExactlyOneHolder` | Network/net_protocol.cpp:176-191 | in every run each message is being sent, waiting or finished, and only one of these |
| `Ownership.CallbacksAtMostOnce` | Network/net_protocol.cpp:599-607 | answer and timeout callback never both run, neither runs twice, nor does the final one |
| `Ownership.FinallyReports` | Network/net_message_item.cpp:18-25 | the final callback runs after the end and reports success exactly if the answer came or none was asked for |
| `Ownership.FinallyRuns` | Network/net_message_item.cpp:18-25 | in every run a message that was let go has had its final callback run, if it has one |
| `WaitingEvents.AnswerEvent` | Network/net_protocol.cpp:599-607 | an answer ends the message that waits with its id and command and runs its handler, and touches no other |
| `WaitingEvents.SubmitEvent` | Network/net_protocol.cpp:69-85 | a new message is held by the writer as it was handed over |
| `WaitingEvents.DropEvent` | Network/net_protocol.cpp:69-85 | without a writer a message is let go and only its final callback runs |
| `WaitingEvents.EnterEvent` | Network/net_protocol.cpp:708-716 | a message waits if its time is free and is let go if not; the entry with its id is let go, the others stay |
| `WaitingEvents.PrepareEvent` | Network/net_protocol.cpp:128-191 | a sent message has its id, lives 10 s if it was a fragment, and waits until resend or end, whichever is first |
| `WaitingEvents.QueryEvent` | Network/net_protocol.cpp:624-643 | a query sends the message again, or puts it back until its end if it expects an answer, or lets it go |
| `WaitingEvents.UnknownQuery` | Network/net_protocol.cpp:624-643 | a query for an id that nobody waits with changes nothing |
| `WaitingEvents.ExpireEvent` | Network/net_protocol.cpp:684-706 | an entry not due stays, a due one is sent again before its end and times out at its end |
| `WaitingEvents.CallbacksExactly` | Network/net_protocol.cpp:599-704 | in every run the answer handler has run if and only if an answer with id and command came while the message waited, the timeout handler if and only if it was found due at its end |
| `TimeMap.EmplaceContents` | Network/net_protocol_timer.cpp:38-44 | an entry is taken in exactly if its time is free |
| `ProtocolTimer.Thread.Add` | Network/net_protocol_timer.cpp:38-44 | the timer is placed and the thread is told |
| `ProtocolTimer.Thread.Collect` | Network/net_protocol_timer.cpp:66-82 | exactly the timers due within 10 ms move to the queue, in order |
| `ProtocolTimer.Thread.EmitNext` | Network/net_protocol_timer.cpp:86-90 | the front of the queue is emitted |
| `ProtocolTimer.CollectsAllDue` | Network/net_protocol_timer.cpp:69-82 | after a timeout nothing due is left pending and nothing else was taken |
| `ProtocolTimer.TimerSafety` | Network/net_protocol_timer.cpp:46-92 | in every interleaving accepted = pending + queued + emitted, never more than 10 ms early, queue ascending |
| `ProtocolTimer.AtMostOnce` | Network/net_protocol_timer.cpp:46-92 | a timer accepted once is emitted at most once |
| `ProtocolTimer.BatchInOrder` | Network/net_protocol_timer.cpp:66-90 | in every run, of two emissions with no wake-up between them, whatever timers are added meanwhile, the later has the later time |
| `ProtocolTimer.FlagMeansNews` | Network/net_protocol_timer.cpp:38-67 | in every run the flag that ends a wait is set exactly if a timer was added since the last wake-up |
| `DeleteRow.Helper.DelImpl` | Database/db_delete_row.cpp:74-98 | issues the statements below a node in the planned order up to the first failure |
| `DeleteRow.Helper.Del` | Database/db_delete_row.cpp:35-72 | issues the whole plan up to the first failure and returns whether there was none |
| `CascadeDelete.PrefixOfPlan` | Database/db_delete_row.cpp:35-98 | what is issued is a prefix of the plan ending at the first failure; success is the whole plan |
| `CascadeDelete.PlanIsPostOrder` | Database/db_delete_row.cpp:40-98 | at any depth exactly the nodes not below a first-level node set to null have a statement, each one, the one for its place, before those of its ancestors |
| `CascadeDelete.IndependentEffect` | Database/db_delete_row.cpp:74-98 | statements on distinct tables act as if each saw the original database |
| `CascadeDelete.PlanIndependent` | Database/db_delete_row.cpp:35-98 | over pairwise distinct tables no statement reads or changes what an earlier one changed |
| `CascadeDelete.ChildRows` | Database/db_delete_row.cpp:40-57 | exactly the child rows that refer to the deleted row are removed or nullified |
| `CascadeDelete.GrandchildRows` | Database/db_delete_row.cpp:74-98 | exactly the grandchild rows that refer to a removed child row are removed or nullified |
| `CascadeDelete.SameTableSetNull` | Database/db_delete_row.cpp:81-82 | a set-null child in the parent's own table: the row with the root's id loses its reference, no other row changes |
| `CascadeDelete.SameTableDelete` | Database/db_delete_row.cpp:83-85 | a deleted child in the parent's own table: exactly the rows that refer to a row with the root's id go |
| `CascadeDelete.OtherTables` | Database/db_delete_row.cpp:35-72 | other tables do not change |
| `CascadeDelete.NoDangling` | Database/db_delete_row.cpp:35-98 | no row refers to the deleted row or to a removed child row |
| `CascadeDelete.TwoLevelCascade` | Database/db_delete_row.cpp:35-98 | a successful delete over two levels changes exactly the rows it should |
| `CascadeLevels.LevelRows` | Database/db_delete_row.cpp:74-98 | at every depth from the second on, the rows hit are those whose parent row carries the root's id in its reference |
| `CascadeLevels.LevelExact` | Database/db_delete_row.cpp:84-85 | at every depth, when a level changes exactly the rows that refer to removed rows: an equivalence |
| `CascadeLevels.SecondLevelRight` | Database/db_delete_row.cpp:74-98 | on the second level the condition always holds |
| `CascadeLevels.ThirdLevelDangles` | Database/db_delete_row.cpp:84-85 | a chain of four tables in which a reference to a deleted row is left |
| `Settings.LTrim` | Base/zstring.cpp:17-20 | leading spaces go |
| `Settings.RTrim` | Base/zstring.cpp:22-25 | trailing spaces go |
| `Settings.TrimmedShape` | Base/zstring.cpp:27-31 | from the first to the last character that is no space; trimming twice is trimming once |
| `Settings.SpaceCharacters` | Base/zstring.cpp:12-15 | exactly six characters are spaces |
| `Settings.GetParamValue` | Base/settings.cpp:12-27 | trimmed value and its span |
| `Settings.HasValue` | Base/settings.cpp:14-17 | a parameter that occurs has a value if and only if there is a '=' behind its first occurrence |
| `Settings.ParamAt` | Base/settings.cpp:14-37 | what is read and replaced is the text from behind the first such '=' to the end of the line |
| `Settings.ParamLine` | Base/settings.cpp:12-38 | a line "param gap = old" reads as old, trimmed, and setting replaces exactly old |
| `Settings.SetParamValue` | Base/settings.cpp:29-38 | the text with the span replaced; reports a change exactly if the value differs |
| `Settings.RoundTrip` | Base/settings.cpp:12-38 | after a set, a get returns the trimmed first line of the value; the text around the span is unchanged |
| `Settings.RoundTripOneLine` | Base/settings.cpp:12-38 | a value without line end comes back trimmed |
| `Settings.MissingParam` | Base/settings.cpp:14-17 | when a parameter that does not occur is found all the same: an equivalence |
| `Settings.MissingParamValue` | Base/settings.cpp:14-37 | which value it then has |
| `Settings.MissingParamExample` | Base/settings.cpp:14-17 | an input for which it is |
| `Placeholders.EndRow` | Database/db_base.cpp:42-50 | closes a row; the buffer is then full exactly after the last row |
| `Placeholders.PutField` | Database/db_base.cpp:52-54 | writes the mark in front of a field, inside the buffer |
| `Placeholders.GetQArray` | Database/db_base.cpp:34-58 | the buffer becomes the rows joined by commas; without fields it repeats "),(?"; no write is outside it |
| `Placeholders.JoinedMarks` | Database/db_base.cpp:34-58 | one question mark per field and row |

## Left out

- Framing.StreamReader.ProcessBytes: where the source reads the front of an empty queue nothing is stated about what follows; whether a handler throws depends on its frame and on the frames handled before.
- Framing.ChunkingIndependence: for well-formed streams; after a failed scan the outcome does depend on the datagrams, as `SizesDrift` and `SettleAlone` show for the same bytes in two datagrams and in one.
- Reassembly.AbsorbFragment: data of 2^31 bytes and more are not covered; a byte array of the library has fewer.
- Progress.BoundedTransfer: packets of other messages between the exchanges are not part of the bound; `OtherPacket` says which of them would undo it.
- IdRuns.AtMostOnce: the condition on aliases is sufficient only; an exact one would have to follow the whole run of the filter.
- FragmentedMessage.FragmentedMessage.constructor: an entry for a full size of zero is not well formed; no sender announces one.
- Packets.PacketRoundTrip: messages of 2^32 bytes and more are not covered, because the size field has 32 bits.
- Placeholders.GetQArray: beyond the range of int nothing is stated.
- Sockets, handshakes and certificates of the link; real clocks, threads and mutexes.
- The checksum and the compressor themselves.
- Temporary files and other devices beyond a sequence of bytes with a position.
- The loop that asks again for the fragments of several idle messages at once; the model has the timeout of one.
- Eventual delivery over a link that loses packets: no bound on resends holds.
- The where-callback of the delete helper, and trees in which a table occurs twice.
- The other query builders, SQL execution and connections.
- The client map and task queues, logging, services and widgets.
