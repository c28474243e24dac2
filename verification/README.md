# irohsion: reordering, parity, repair and codecs, verified

irohsion carries one UDP stream over several lossy paths. The sender numbers each
payload with a 26-bit sequence number, sends it whole or in up to seven fragments over
one or more paths, adds exclusive-or parity frames over groups of payloads, and keeps
recent packets for repair. The receiver puts the stream back in order: it reassembles
fragments, rebuilds single losses from parity, asks for repairs, skips what has been
missing for too long, and tells a restarted sender from a late duplicate.

This project models both ends and the wire between them, and proves what holds over
every run: for any arrivals in any order, with any loss and repetition.

How it is laid out:

- `Window`, `Receiver`: one step of the receiving task as a function of its state. The
  state carries, per flow, a record of what was forwarded, skipped, accepted and asked
  for. `ReorderServer` is the imperative receiver (classes updating their fields in
  place); each method's new state is equal to the function, so every law below is a law
  of the class. `FecRecovery` does the same for the parity store.
- `WindowLaws`, `RunLaws`, `FlowHistory`, `FlowBoundaries`, `LateTable`: the machine
  invariant, the shape of the delivery log, conservation, the peeling fixpoint, where one
  flow ends and the next begins, and the below-window decision with the table it consults.
- `GapExpiry`, `GapClosing`: what a step does about the gap at the head, in closed form.
  `WindowMoves`, `RepairAsking`, `RepairSpacing`: what is asked for and how often.
- `Integrity`, `EndToEnd`: only sent payloads come out, whatever arrives.
- `StreamClosure`, `StreamCourse`, `StreamWindow`, `StreamParity`, `StreamRest`,
  `StreamPieces`, `Reordering`: what is complete does come out, in order. What can be known
  to be complete is defined without a window, as the least set of packets closed under
  "all its pieces are there" and "parity rebuilds it"; between two arrivals the window has
  done exactly that set. `LossRecovery` joins this to the sender: if of each parity group
  at most one packet is lost, everything that was sent is forwarded.
- `SplitRanges`, `FecEncoder`, `GroupsSent`, `AdaptiveMtu`, `Sender`, `RepairCache`,
  `RepairTiming`, `RepairRetention`, `RepairLoop`: the sending side and its repair cache. `RepairDelivery`, `AwaitedPacket`,
  `RepairRuns`: what the receiver makes of the answer to its own request, in a window and
  over a run with anything genuine in between.
- `Wire`, `NumberText`, `HealthCodec`: the codecs. `PathLifecycle`: path liveness.
  `SplitWeights`, `PathPreference`: path weights, and on what they depend.

Time is a natural number passed into each step. Verify with `dafny verify dfyconfig.toml`.

Where the code's guarantees stop, the theorems say so. Ordering is linear at the
wrap-around, so the log keeps its cyclic shape across it but payload integrity and
accepted-once are stated for flows that have not wrapped.

- `Reordering.ReorderingIsUndone` holds for runs of any length, and its conditions are on
  the arrivals: no piece is a reorder delay old while it is at or past the head, none comes
  over a new connection 4096 or more behind the head, and where parity is relied on at most
  256 frames are of use at a time and no packet of use was completed more than 4096
  completions ago. `BurstIsOnCourse` says that any order will do for a stretch of up to 256
  packets within one delay. What happens past the delay is in `GapExpiry` and `GapClosing`:
  at a timeout an overdue head has been skipped when the step is over
  (`OverdueHeadIsSkipped`), but one step closes at most one gap.
- `RepairTiming.NeverStaleIff` gives the exact condition under which the repair cache never
  answers with an outlived packet, and `OlderReinsertionGoesStale` a run in which it does.
- `AdaptiveMtu.FramesFitIffSuggestionsSafe` says exactly for which sequences of suggested
  group sizes some payloads make a parity frame longer than the MTU. A rise from three to
  six and a fall from six to three both do (`RisingSuggestionOvershoots`,
  `FallingSuggestionOvershoots`); the excess is at most the six bytes of `FramesFitTheMtu`.
- `RunLaws.BelowWindowDecision` gives the late packets in closed form: those among the last
  4096 numbers newly skipped. These are not always the last 4096 skips. `LateTable` says
  exactly when the two agree (`AlwaysRightIff`; always up to 4096 skips, and always before a
  flow wraps), and `LateThoughNotRecent` and `DuplicateThoughRecent` are packets that the
  difference puts in the wrong class, one each way.
- `HealthCodec.ReportRoundTrip` says exactly which health reports survive their text form.

## Model

| member | source | states |
|---|---|---|
| Sequences.ComputeSequenceAfter | crates/server/src/main.rs:1081-1086 | the stepping loop computes the k-th successor |
| Sequences.SequenceAfterIsModular | crates/server/src/main.rs:1073-1086 | k steps from s is (s + k) mod (2^26 - 1), so the parity number is never produced |
| Sequences.SequenceAfterInjective | crates/server/src/main.rs:1073-1086 | no number comes twice within one full cycle |
| Wire.PacketDecodesToItself | crates/protocol/src/lib.rs:156-202 | every valid header and payload survives encoding and decoding |
| Wire.DecodedPacketReencodes | crates/protocol/src/lib.rs:176-202 | bytes that decode have a valid header and re-encode to themselves |
| Wire.RefusedPacketTellsWhy | crates/protocol/src/lib.rs:176-202 | a datagram is refused for being too short or for the fragment numbers of its header, and the error holds them |
| Wire.RepairRequestDecodesToItself | crates/protocol/src/lib.rs:204-243 | every valid repair request survives encoding and decoding |
| Wire.DecodedRepairRequestReencodes | crates/protocol/src/lib.rs:220-243 | bytes that decode are a valid request and re-encode to themselves |
| Wire.RefusedRequestTellsWhy | crates/protocol/src/lib.rs:220-243 | a repair request is refused for its length, its number or its mask, whichever is wrong first, and the error holds it |
| Wire.EncodeFecFrame | crates/protocol/src/lib.rs:245-287 | the appending encoder writes exactly the frame's datagram |
| Wire.ReadLengths | crates/protocol/src/lib.rs:324-333 | the loop over the length table reads every 16-bit entry in order |
| Wire.DecodeFecFrame | crates/protocol/src/lib.rs:289-358 | the offset-advancing decoder gives the frame, or the first error in the order of the checks |
| Wire.FecFrameDecodesToItself | crates/protocol/src/lib.rs:245-358 | every valid parity frame survives encoding and decoding |
| Wire.DecodedFecFrameReencodes | crates/protocol/src/lib.rs:289-358 | bytes that decode meet the encoder's assertions and re-encode to themselves |
| Wire.RefusedFrameTellsWhy | crates/protocol/src/lib.rs:289-358 | a parity frame is refused for its packet header, magic, base, group size or length table, whichever is wrong first, and the error holds it |
| Wire.ParsedFramesAreValid | crates/server/src/main.rs:450-465 | whatever the datagram parser lets through meets what the receiver's steps require |
| Wire.MediaDatagramParses | crates/server/src/main.rs:450-465 | an encoded media packet parses to itself |
| Wire.FecDatagramParses | crates/server/src/main.rs:450-465 | an encoded parity frame parses to itself and never as media |
| Assembly.IntoPayload | crates/server/src/main.rs:140-152 | a full assembly yields its pieces concatenated in order |
| Assembly.InsertKeepsValid | crates/server/src/main.rs:117-130 | a new fragment fills one more slot and the count stays the number of filled slots |
| Assembly.MissingMaskIsExact | crates/server/src/main.rs:132-138 | bit i of the mask is set exactly when fragment i exists and is missing, no other bit ever |
| Assembly.ReassemblyInAnyOrder | crates/server/src/main.rs:103-152 | pieces inserted in any order, with repetition, complete exactly when every index came, and then give the whole |
| FecRecovery.FecState.Insert | crates/server/src/main.rs:1096-1103 | stores the frame under its base and evicts the oldest beyond 256 |
| FecRecovery.FecState.Remember | crates/server/src/main.rs:1105-1113 | remembers a payload once and evicts the oldest beyond 4096 |
| FecRecovery.FecState.ExamineFrame | crates/server/src/main.rs:1128-1162 | folding present members out of the parity in place gives the frame's verdict |
| FecRecovery.FecState.Recover | crates/server/src/main.rs:1115-1178 | one pass over the frames in base order keeps the stuck ones and returns what the others yield |
| FecRecovery.VerdictIff | crates/server/src/main.rs:1128-1162 | for any stored frame, genuine or not: something is rebuilt exactly if one member is not held and the lengths it gives fit the parity and every held member; nothing is missing exactly if they fit and all are held; a frame kept misses two or more |
| FecRecovery.InsertFrameKeepsOk | crates/server/src/main.rs:1096-1103 | frames stay valid, filed under their base, queued, and at most 256 |
| FecRecovery.StoredFramesAreTheLatest | crates/server/src/main.rs:1096-1103 | a frame is stored under its base, and beyond 256 frames those of the oldest bases queued go, as few as it takes, all others staying |
| FecRecovery.InsertPayloadKeepsOk | crates/server/src/main.rs:1105-1113 | payload cache and queue stay a duplicate-free match of at most 4096 |
| FecRecovery.RecoverReadyPeels | crates/server/src/main.rs:1115-1178 | after one pass every stored frame has two members in neither the cache nor the buffer |
| FecRecovery.OnlyWantedIsRecovered | crates/server/src/main.rs:1115-1178 | a pass returns only payloads at or past the head that are in neither the cache nor the buffer |
| FecRecovery.RecoverReadyShrinks | crates/server/src/main.rs:780-828 | a productive pass leaves strictly fewer frames, so recovery terminates |
| FecRecovery.ExamineIsRight | crates/server/src/main.rs:1128-1174 | for a genuine frame the verdict is never unusable, and a single missing member is rebuilt exactly |
| FecRecovery.ErasureIsCorrected | crates/server/src/main.rs:1115-1178 | with exactly one member absent and not below the head, its number and bytes are returned, for mixed lengths and across the wrap |
| Window.PeelingShrinks | crates/server/src/main.rs:780-828 | the measure of the outer recovery loop |
| Window.SkipKeepsAhead | crates/server/src/main.rs:987-1009 | skipping the head moves it towards a pending key and never past it |
| WindowLaws.AcceptKeepsGood | crates/server/src/main.rs:720-778 | accepting a payload keeps the machine invariant, the log shape, conservation and accepted-once |
| WindowLaws.DrainKeepsGood | crates/server/src/main.rs:1036-1071 | draining keeps the machine invariant, the log shape, conservation and accepted-once, and ends with the head not buffered |
| WindowLaws.RecoverFecKeepsGood | crates/server/src/main.rs:780-828 | parity recovery keeps the machine invariant and conservation; overlapping frames never accept a number twice |
| WindowLaws.SkipHeadKeepsGood | crates/server/src/main.rs:1012-1034 | a skip keeps the machine invariant and conservation, and the late table is what the flow's skips have made, in order |
| WindowLaws.ExpireKeepsGood | crates/server/src/main.rs:954-1010 | expiry terminates and keeps the machine invariant, the log shape and conservation |
| WindowLaws.RequestRepairsIsSound | crates/server/src/main.rs:898-952 | every issued request is encodable, at most 64 a tick, each for the head's gap or for exactly what some assembly lacks, and only request times change |
| WindowLaws.RequestsAreExact | crates/server/src/main.rs:898-952 | each new request asks for all of the head, which is wholly missing with something behind it, or carries the exact mask of a held assembly |
| WindowLaws.RequestRepairsKeepsGood | crates/server/src/main.rs:898-952 | asking keeps the invariant, with open gap requests only for the head |
| RepairAsking.EverythingDueIsAskedFor | crates/server/src/main.rs:898-952 | a tick asks for all of a wholly missing head with something pending, first, and for exactly what is missing of every assembly, in ascending order, whenever that was not asked for within the interval; only once 64 are out are later ones left; the time of each is noted and nothing else changes |
| RepairAsking.LatelyIsNotAskedAgain | crates/server/src/main.rs:898-952 | an assembly asked for within the interval is not asked for again |
| RepairSpacing.TimerAsksForAllDue | crates/server/src/main.rs:499-521 | a timeout issues a request for whatever is due once parity is used up, the gap at the head and each assembly, as far as 64 go |
| RepairSpacing.FirstFragmentAsksForTheRest | crates/server/src/main.rs:614-715 | unless parity rebuilds the packet at once, the first fragment of it has all the others asked for in the same step, as far as 64 go |
| RepairSpacing.WithoutIntervalNothingIsAsked | crates/server/src/main.rs:830-888 | with repair switched off no step asks for anything |
| RepairSpacing.RequestsAreSpaced | crates/server/src/main.rs:467-717 | over every run, whatever comes in between, two requests for one gap or for one assembly of a flow are at least the repair interval apart, until the numbers wrap |
| RunLaws.RecoverFecPeels | crates/server/src/main.rs:780-828 | recovery ends only when every stored frame misses at least two members |
| RunLaws.AdvancePeels | crates/server/src/main.rs:830-888 | after an advance, with its requests, expiry and draining, every stored frame misses at least two members |
| RunLaws.DetectorCountsTheRun | crates/server/src/main.rs:1211-1233 | the detector's count reaches n exactly when the last n observations are far behind and never descend |
| RunLaws.StepIsLawful | crates/server/src/main.rs:477-715 | one iteration of the loop keeps everything that holds at step boundaries |
| RunLaws.RunIsLawful | crates/server/src/main.rs:467-717 | after every run of the loop all that holds at step boundaries holds |
| RunLaws.EveryFlowIsAccountedFor | crates/server/src/main.rs:467-778 | after every run each flow's log is start, start + 1, ... mod 2^26 - 1 up to the head; accepted = forwarded + buffered; an idle reset loses nothing |
| RunLaws.AcceptedIsNeverSkipped | crates/server/src/main.rs:467-717 | after every run, in each flow that has not wrapped, no accepted number was ever skipped |
| RunLaws.BelowWindowDecision | crates/server/src/main.rs:583-612 | a packet below the head restarts, is late, or is a duplicate, each by an exact condition on the history: late is being among the last 4096 numbers newly skipped, which is being among all of up to 4096 skips, or among the last 4096 of any if no number was skipped again while among those |
| RunLaws.LateThoughNotRecent | crates/server/src/main.rs:583-612 | after 4096 numbers and one of them again, other than the first, a packet with the first is late although 4096 skips have come since |
| RunLaws.DuplicateThoughRecent | crates/server/src/main.rs:583-612 | after 4096 numbers, the first of them again and then a new one, a packet with the first is a duplicate although it was skipped just before |
| LateTable.TableInClosedForm | crates/server/src/main.rs:1236-1246 | whatever was skipped, repeats included, the table is the last 4096 numbers newly skipped, in order |
| LateTable.AlwaysRightIff | crates/server/src/main.rs:1236-1246 | the table has held exactly the numbers among the last 4096 skips all along if and only if each skip dropped the same number from the table as from the last 4096 |
| LateTable.FewSkips | crates/server/src/main.rs:1236-1246 | up to 4096 skips the table holds exactly the skipped numbers, repeats or not |
| LateTable.TableIsTheLastSkipsIff | crates/server/src/main.rs:1236-1246 | the queue has been the last 4096 skips, in order, all along exactly when no number was skipped again while among them |
| LateTable.TableMissesARepeat | crates/server/src/main.rs:1236-1246 | a number skipped again while among the last 4096 skips keeps its old place in the queue |
| LateTable.UnwrappedIsNoneSkippedAgain | crates/server/src/main.rs:1012-1034 | a flow that has not wrapped skips no number again |
| RunLaws.BelowWindowChangesNothing | crates/server/src/main.rs:583-612 | a packet below the head that does not restart the flow changes nothing in the window |
| GapExpiry.ExpireInClosedForm | crates/server/src/main.rs:954-1010 | the expiry loop skips exactly the numbers up to the first blocking one: a buffered packet, a young assembly, or a gap with nothing old behind it |
| GapExpiry.ExpireLeavesNothingOverdue | crates/server/src/main.rs:954-1010 | on return the loop's stopping condition holds |
| GapExpiry.SkipsAreJustified | crates/server/src/main.rs:954-1010 | no complete payload is skipped, and each skip had a blocking item at least the reorder delay old |
| GapClosing.DrainInClosedForm | crates/server/src/main.rs:1036-1071 | draining sends out exactly the gapless run of the buffer from the head on, puts each payload of it in the parity cache, and leaves the rest of the buffer |
| GapClosing.AdvanceInClosedForm | crates/server/src/main.rs:830-888 | once parity is used up, an advance skips every number from the head up to the first that is buffered, young or has nothing overdue behind it, each for its reason, then sends out the buffered run from there; what is left of buffer, assemblies and cache is given exactly |
| GapClosing.TimerCloses | crates/server/src/main.rs:499-521 | a timeout with something pending skips, from the window with parity used up, exactly the numbers up to the first that blocks, and forwards the buffered run from there |
| GapClosing.FragmentCloses | crates/server/src/main.rs:614-715 | a new fragment that does not complete its packet is put in its assembly; then, with parity used up, exactly the numbers up to the first that blocks are skipped and the buffered run from there is forwarded |
| GapClosing.LastFragmentCloses | crates/server/src/main.rs:614-778 | a fragment that completes its packet has the payload accepted and parity used up on it; then exactly the numbers up to the first that blocks are skipped and the buffered run from there is forwarded |
| GapClosing.WholePacketCloses | crates/server/src/main.rs:614-778 | a packet that comes whole is accepted in place of whatever fragments of it were held; then, with parity used up, exactly the numbers up to the first that blocks are skipped and the buffered run from there is forwarded |
| GapClosing.FrameCloses | crates/server/src/main.rs:534-569 | a parity frame is stored and used up; then exactly the numbers up to the first that blocks are skipped and the buffered run from there is forwarded |
| GapClosing.HeadIsSkippedIff | crates/server/src/main.rs:499-521 | a timeout gives up the head exactly if, with parity used up, it is not buffered and is an old assembly or has something overdue behind it; otherwise it skips and forwards nothing more |
| GapClosing.OverdueHeadIsSkipped | crates/server/src/main.rs:499-521 | a head that is overdue when the timer fires has been skipped when the step is over, unless parity moves the head or completes the overdue assembly behind it |
| FlowHistory.FlowGoesOnOrEnds | crates/server/src/main.rs:477-715 | a step extends the flow's log and acceptances or ends it, and it ends only idle with nothing pending or at a confirmed restart |
| FlowHistory.DeliveriesAreFinal | crates/server/src/main.rs:467-717 | what a flow has delivered at any moment is a prefix of what it has delivered later |
| FlowBoundaries.ConnectionsAreThoseHeard | crates/server/src/main.rs:574-612 | after every run, the connections that cannot restart the flow are exactly those of which a packet has entered it: by opening it, at or past the head, or by the restart that began it |
| FlowBoundaries.HistoryIsWhatWasShown | crates/server/src/main.rs:499-612 | after every run, the detector's history is what each event had to show it: far packets of connections not heard, and a clearing by every packet in the window, every near one not heard and every idle reset |
| FlowBoundaries.RestartsExactlyWhen | crates/server/src/main.rs:583-612 | after every run, a packet behind the head restarts the flow exactly if its connection has not been heard in it, it is 4096 or more behind, and it is at least the eighth in a row of such, not descending and with nothing clearing between |
| FlowBoundaries.TimeoutEndsTheFlowIff | crates/server/src/main.rs:499-530 | a timeout ends the flow exactly if neither a packet nor a fragment is held, and then leaves nothing of it |
| FlowBoundaries.OpeningPacketComesOut | crates/server/src/main.rs:574-640 | a whole packet that opens a flow, at the start, after an idle reset or by a restart, is the first to be forwarded in it |
| FlowBoundaries.EarlyParityIsKept | crates/server/src/main.rs:534-569 | a parity frame that comes while no flow is under way is stored, and still there when one begins |
| ReorderServer.ReorderServer.constructor | crates/server/src/main.rs:477-486 | a new receiver is in the start state |
| ReorderServer.RestartDetector.Observe | crates/server/src/main.rs:1212-1227 | counters updated in place are the detector's next state and verdict |
| ReorderServer.RecentSkippedSequences.Insert | crates/server/src/main.rs:1236-1246 | queue and lookup updated in place, trimmed from the front, are the table after one more skip |
| ReorderServer.ReorderServer.AcceptCompletePayload | crates/server/src/main.rs:720-778 | the new state is the window after acceptance |
| ReorderServer.ReorderServer.RecoverFecReady | crates/server/src/main.rs:780-828 | the recovery loop terminates in the peeled window |
| ReorderServer.ReorderServer.AdvanceReorderWindow | crates/server/src/main.rs:830-888 | recover, ask, expire, drain, in that order |
| ReorderServer.ReorderServer.RequestDueRepairs | crates/server/src/main.rs:898-952 | requests in order of number until 64 are out |
| ReorderServer.ReorderServer.ExpireReorderGap | crates/server/src/main.rs:954-1010 | the loop terminates in the expired window |
| ReorderServer.ReorderServer.DrainReady | crates/server/src/main.rs:1036-1071 | the loop forwards the buffered run at the head |
| ReorderServer.ReorderServer.DeliverPacket | crates/server/src/main.rs:614-715 | duplicates, whole packets and fragments of a packet at or past the head |
| ReorderServer.ReorderServer.HandleEvent | crates/server/src/main.rs:477-715 | one iteration of the loop is one step of the model |
| ReorderServer.ReorderServer.ReorderLoop | crates/server/src/main.rs:467-717 | the loop over any events ends in the state of the modelled run |
| Integrity.RunStaysHonest | crates/server/src/main.rs:467-717 | if all that arrives is genuine, every payload held or forwarded in every run is the sender's for its number |
| Integrity.RestartForgets | crates/server/src/main.rs:586-606 | after a confirmed restart only the new stream matters, whatever came before |
| Integrity.IdleResetForgets | crates/server/src/main.rs:499-530 | after an idle reset nothing of the flow is held |
| Integrity.LaterFlowsAreHonest | crates/server/src/main.rs:467-717 | after any run, once a flow ends by idle reset or confirmed restart, every later flow forwards only the payloads of whoever sends from then on |
| StreamClosure.SomePieceIsBeyond | crates/server/src/main.rs:780-828 | parity carries nothing past a gap: a complete packet beyond an incomplete one means that some piece at or beyond the latter has come |
| StreamWindow.AcceptCore | crates/server/src/main.rs:720-778 | accepting a complete packet that was not done makes it done and nothing else, and the payload cache stays the last 4096 accepted |
| StreamParity.VerdictTells | crates/server/src/main.rs:1115-1178 | what the verdict on a stored frame says about which of its packets are done |
| StreamParity.RecoverFecCore | crates/server/src/main.rs:780-828 | recovery makes only complete packets done, and each frame that has come is still stored or of no more use |
| StreamParity.GoalIsReached | crates/server/src/main.rs:780-828 | when recovery ends, what is passed or held is exactly the least closed set of complete packets |
| StreamRest.NothingIsOverdue | crates/server/src/main.rs:954-1010 | with all pieces at or past the head young, expiry changes nothing |
| StreamRest.AdvanceRests | crates/server/src/main.rs:830-888 | recovering, asking, expiring and draining in time end with exactly the complete packets done |
| StreamPieces.PieceRests | crates/server/src/main.rs:614-715 | a whole packet, a fragment that completes one, one that does not, or a repeat: afterwards exactly the complete packets are done |
| Reordering.ParityRests | crates/server/src/main.rs:534-569 | after a parity frame, stored without evicting one that is still of use, exactly the complete packets are done |
| Reordering.TimerRests | crates/server/src/main.rs:499-521 | after a timeout while something is pending exactly the complete packets are done |
| Reordering.ReorderingIsUndone | crates/server/src/main.rs:467-717 | pieces, whole copies and parity in any order, repeated, over any paths and for any length of run, each in time: exactly the gapless prefix of what is complete has been forwarded, in order, nothing skipped and no flow ended |
| Reordering.BurstIsOnCourse | crates/server/src/main.rs:467-717 | for up to 256 packets within one reorder delay any order is in time |
| LossRecovery.WireIsOfStream | crates/client/src/main.rs:1058-1423 | every datagram the sender puts on the wire, first or again, is a piece or a whole copy of its stream, or parity over it |
| LossRecovery.WhatIsCompleteComesOut | crates/server/src/main.rs:467-717 | whatever of the sender's datagrams arrive in time, a fresh receiver has forwarded exactly what was sent before the first packet they do not complete |
| LossRecovery.OneLossPerGroupIsHarmless | crates/server/src/main.rs:467-717 | if at most one packet of each flushed group is lost and its parity comes in time, everything sent is forwarded, byte for byte and in order |
| SplitRanges.WeightedSplitRanges | crates/client/src/main.rs:1546-1561 | the accumulating loop cuts at the clamped rounded totals, for any rounding |
| SplitRanges.MtuChunkedSplitRanges | crates/client/src/main.rs:1587-1615 | chunks of MTU size dealt to paths by their shares, or nothing if there would be more than seven |
| SplitRanges.PacketSplitRanges | crates/client/src/main.rs:1563-1581 | chunks if the payload exceeds the MTU, else the weighted shares without the empty ones, and nothing beyond seven |
| SplitRanges.SplitIsAPartition | crates/client/src/main.rs:1546-1615 | a split of a non-empty payload is 1 to 7 non-empty ranges tiling it in order, each within the MTU when that applies |
| SplitRanges.SplitRefusedOnlyBeyondSeven | crates/client/src/main.rs:1563-1615 | chunking is refused exactly when seven MTUs are not enough |
| SplitRanges.SharesEndAtTheTotals | crates/client/src/main.rs:1546-1561 | a share ends at the greatest rounded total so far, or at the length if that is less: at its own total where the totals rise within the length |
| SplitRanges.EachPathGetsItsShare | crates/client/src/main.rs:1546-1615 | each path gets its share: within the MTU the bytes between its share's ends, over it the chunks whose places lie in its share of their number |
| FecEncoder.ValidModesAreTheConfigurable | crates/client/src/main.rs:287-304 | the modes the proofs assume are exactly those a configuration can select |
| FecEncoder.XorPayload | crates/client/src/main.rs:374-381 | the in-place loop folds a payload into the parity bytes |
| FecEncoder.BuildFrame | crates/client/src/main.rs:354-392 | base, lengths and parity of a group |
| FecEncoder.FecEncoder.RecordPacket | crates/client/src/main.rs:306-344 | the encoder's next group and exactly the frames sent, all encodable |
| FecEncoder.RecordKeepsGroupOk | crates/client/src/main.rs:306-405 | the pending group stays consecutive and below its limit; whatever is flushed is 2 or more packets |
| FecEncoder.GroupsLieInOrder | crates/client/src/main.rs:306-405 | over any calls the flushed groups are disjoint, in-order stretches of 2 to 32 consecutive packets |
| GroupsSent.GroupsSentInClosedForm | crates/client/src/main.rs:306-405 | which groups are sent, in every mode but the disabled one, with or without an MTU: a packet is admitted if its length is at most 65535 and leaves room for the frame's header within an MTU; a group is a stretch of admitted consecutive packets, sent when it reaches its size, or when it is of two or more and the next packet does not join it, if some payload in it is not empty; and what is still held |
| GroupsSent.DisabledSendsNothing | crates/client/src/main.rs:306-352 | a disabled encoder sends nothing and holds nothing |
| FecEncoder.FramesFitTheMtu | crates/client/src/main.rs:306-405 | parity payloads are within the MTU in fixed mode, within six bytes of it in adaptive mode |
| FecEncoder.AdaptiveFrameCanExceedTheMtu | crates/client/src/main.rs:314-343 | a run with one byte admitted for groups of three in a group of six, whose frame is six bytes over the MTU |
| AdaptiveMtu.FramesFitIffSuggestionsSafe | crates/client/src/main.rs:306-405 | some packets make a frame overshoot exactly when the suggestions contain a stretch that can be a group and has in it a smaller suggestion leaving room for a byte |
| AdaptiveMtu.SafeWhileGroupsStaySmall | crates/client/src/main.rs:306-405 | every frame fits while each suggestion is at least the size of every group that can span it |
| AdaptiveMtu.ConstantSuggestionIsSafe | crates/client/src/main.rs:306-405 | with a suggestion that never changes every frame fits |
| AdaptiveMtu.RisingSuggestionOvershoots | crates/client/src/main.rs:306-344 | a rise of the suggestion from three to six overshoots |
| AdaptiveMtu.FallingSuggestionOvershoots | crates/client/src/main.rs:306-344 | a fall of the suggestion from six to three overshoots |
| FecEncoder.FlushedFrameIsParity | crates/client/src/main.rs:354-392 | a flushed frame is the parity of its group under its group's numbers |
| Sender.BuildFragments | crates/client/src/main.rs:1327-1345 | one datagram per range, numbered within the packet |
| Sender.NumberShare | crates/client/src/main.rs:1212-1226 | one path's chunks get consecutive numbers |
| Sender.NumberChunksSplit | crates/client/src/main.rs:1208-1228 | chunks dealt path by path go out once each, in order, under consecutive numbers |
| Sender.ChunksConcatenate | crates/client/src/main.rs:1100-1229 | chunking a transport-stream payload loses nothing |
| Sender.TransportStreamsAreChunked | crates/client/src/main.rs:1058-1229 | a payload of whole transport-stream packets longer than the chunk size goes out in whole packets of one chunk each, of that size but for the last, that concatenate to it; any other payload is one packet or none |
| Sender.DatagramsFitTheMtu | crates/client/src/main.rs:1242-1423 | with an MTU no datagram of a single packet is longer than header and MTU, rescue copies included |
| Sender.InPiecesIff | crates/client/src/main.rs:1504-1581 | a packet within the MTU goes out in two or more pieces exactly if the mode asks for it, in automatic mode by strategy and threshold, and two paths have a share of it |
| Sender.RescueCopyGoesToo | crates/client/src/main.rs:1346-1423 | with rescue paths, a packet within the MTU goes out whole as well and is cached whole last |
| Sender.SendPayloadIsWellSent | crates/client/src/main.rs:1058-1423 | every number sent has one payload, one fragmentation that concatenates to it, datagrams made from those, and cache insertions of all its fragments or of the whole |
| Sender.SendAllIsNumbered | crates/client/src/main.rs:1058-1423 | over any ingests each number is used for one payload until the number space is used up |
| EndToEnd.ParityRepairsOneLoss | crates/client/src/main.rs:354-392 | encoder, wire and receiver together: one lost member of any flushed group is rebuilt exactly |
| EndToEnd.SplitThenReassemble | crates/client/src/main.rs:1242-1423 | split, encode, decode and insert in any order with repetition gives the payload back; a split into one piece is the whole packet |
| EndToEnd.ResentWasSent | crates/client/src/main.rs:168-284 | whatever the cache answers, after any run of requests and of insertions of datagrams sent under the number they are kept for, was sent before |
| EndToEnd.SendersInsertionsAreKept | crates/client/src/main.rs:1242-1423 | what the sender puts in its cache is such: the fragments of a split packet, then its rescue copy in their place, or the packet whole |
| EndToEnd.OnlySentPayloadsComeOut | crates/server/src/main.rs:467-717 | for any sender run and any arrivals made of its datagrams and of repairs from its cache, everything forwarded in any flow is a payload sent under that number |
| RepairCache.RepairCache.Store | crates/client/src/main.rs:177-196 | expire, insert, enforce the limit |
| RepairCache.RepairCache.FragmentsFor | crates/client/src/main.rs:198-235 | expire, look up, deduplicate, select by mask, remember the request |
| RepairCache.RepairCache.Select | crates/client/src/main.rs:226-234 | the loop keeps exactly the fragments whose bits are set |
| RepairCache.InsertKeepsOk | crates/client/src/main.rs:177-259 | both queues stay duplicate-free matches of their maps and within their limits |
| RepairCache.EveryRunKeepsOk | crates/client/src/main.rs:168-284 | after every run of insertions and requests both queues of the cache are duplicate-free matches of their maps and within their limits |
| RepairRetention.InsertKeepsTheLast | crates/client/src/main.rs:177-259 | after an insertion the queue is the last packets, up to the limit, of those not expired and the new one, each with the fragments and time it was stored with |
| RepairRetention.StoredIsFound | crates/client/src/main.rs:177-259 | a packet is found as soon as it is stored, as it was stored |
| RepairRetention.LookupFindsExactly | crates/client/src/main.rs:177-259 | over every run that inserts again only the number inserted last, a lookup finds exactly what is younger than the time to live and among the last packets stored up to the limit |
| RepairRetention.AnsweredIff | crates/client/src/main.rs:198-284 | over every run a request is answered exactly if its packet is found and none of the answers still remembered was to the same request less than 10 ms ago |
| RepairTiming.AnswersAreSpaced | crates/client/src/main.rs:198-284 | two answers to one request are 10 ms apart unless as many others as the table holds came between |
| RepairTiming.ExpiryIsExact | crates/client/src/main.rs:237-250 | expiry drops outlived packets from the front and stops at the first that is not |
| RepairTiming.NeverStaleIff | crates/client/src/main.rs:185-250 | no lookup ever finds an outlived packet exactly when the time to live is zero or storage times rise along the queue |
| RepairTiming.NewestOnlyRunsAreNeverStale | crates/client/src/main.rs:185-250 | after every run that inserts again only the number inserted last, no lookup ever finds an outlived packet |
| RepairTiming.OlderReinsertionGoesStale | crates/client/src/main.rs:185-194 | inserting an older number again can make a later lookup answer with an outlived packet |
| RepairLoop.SelectedAreMissing | crates/client/src/main.rs:226-234 | the mask of an assembly selects exactly its missing fragments, in order |
| RepairLoop.FragmentRepairCompletes | crates/client/src/main.rs:198-235 | the answer to an assembly's mask is exactly its missing fragments, which complete it to the original payload |
| RepairLoop.WholeRepairReplaces | crates/client/src/main.rs:198-235 | a packet cached whole is answered whole, whatever the mask, and the answer parses to it |
| RepairLoop.GapRepairSendsEverything | crates/server/src/main.rs:910-923 | the mask sent for a gap selects everything cached |
| RepairDelivery.MissingPiecesAreAccepted | crates/server/src/main.rs:614-715 | while an assembly is young, offering what it lacks in any order, with repetition, has its payload accepted |
| AwaitedPacket.PassedIsAccepted | crates/server/src/main.rs:720-888 | as long as nothing is skipped the window passes a packet only by forwarding it, and then its payload has been accepted |
| AwaitedPacket.AdvanceAwaits | crates/server/src/main.rs:830-888 | an advance in time loses no piece of an awaited packet and does not go past it |
| AwaitedPacket.DeliverOtherAwaits | crates/server/src/main.rs:614-715 | the arrival of any other genuine packet loses no piece of an awaited packet and does not go past it |
| RepairRuns.StepRequestsFit | crates/server/src/main.rs:898-952 | every request that a step issues is, when the step is over, for exactly what its packet lacks, if that is still being collected |
| RepairRuns.AwaitedIsAccepted | crates/server/src/main.rs:467-717 | over any run of genuine events in time, a packet whose missing pieces come, singly or in a whole copy, is accepted |
| RepairRuns.FragmentRepairIsAccepted | crates/server/src/main.rs:467-717 | a step asks for what a packet lacks; the answer comes in any order among any genuine events while the assembly is young; then the payload has been accepted |
| RepairRuns.GapRepairIsAccepted | crates/server/src/main.rs:467-717 | all of a wholly missing packet is asked for; the answer comes in any order among any genuine events before anything pending is overdue; then the payload has been accepted |
| RepairDelivery.WholeRepairIsAccepted | crates/server/src/main.rs:614-715 | a packet kept whole is answered whole, replaces what was collected and is accepted next, young or not |
| PathLifecycle.DeadPathIsNeverForgotten | crates/transport/src/lib.rs:120-192 | under every interleaving of writes, a path that is not live has its reconnection requested |
| PathLifecycle.ReplacementSurvivesLateReports | crates/transport/src/lib.rs:142-155 | reports naming another connection never remove the live one |
| PathLifecycle.NamedFailureClears | crates/transport/src/lib.rs:142-155 | a report that names the live connection, or none, makes the path pending; any other changes nothing |
| PathLifecycle.ChangedAddressClears | crates/transport/src/lib.rs:157-168 | another address of its interface makes a live path pending, the same address changes nothing |
| PathLifecycle.InstallConnects | crates/transport/src/lib.rs:170-192 | an installation connects the path and clears the request, also one raised between its two writes |
| PathLifecycle.RequestStands | crates/transport/src/lib.rs:120-192 | a request for reconnection stands until an installation is finished |
| PathLifecycle.PathConnection.MarkFailed | crates/transport/src/lib.rs:142-155 | the two writes when a connection has failed, and the endpoint to close |
| PathLifecycle.PathConnection.MarkInterfaceChanged | crates/transport/src/lib.rs:157-168 | the two writes when an interface address has changed, and the endpoint to close |
| PathLifecycle.PathConnection.Reconnect | crates/transport/src/lib.rs:170-192 | a failed attempt changes nothing, a successful one installs and clears the request |
| HealthCodec.EncodeHealthText | crates/transport/src/lib.rs:447-459 | the pushing loop escapes every character |
| HealthCodec.DecodeHealthText | crates/transport/src/lib.rs:461-483 | the iterating loop unescapes, keeping unknown and trailing escapes |
| HealthCodec.TextRoundTrip | crates/transport/src/lib.rs:447-483 | unescaping undoes escaping for every text |
| HealthCodec.EncodedTextIsPlain | crates/transport/src/lib.rs:447-459 | escaped text holds no tab, line feed or carriage return |
| NumberText.FloatReadsBack | crates/transport/src/lib.rs:318-445 | a throughput written to four decimals is read back as its rounding to them, infinities and not-a-number included |
| NumberText.RoundedIff | crates/transport/src/lib.rs:318-348 | the rounding is the throughput itself exactly if that is a whole number of ten-thousandths or not finite |
| NumberText.ExponentScales | crates/transport/src/lib.rs:377-445 | an exponent after an e of either case scales what the mantissa spells by that power of ten, up or down |
| NumberText.OtherTextIsNoU64 | crates/transport/src/lib.rs:350-445 | a number beyond 64 bits is refused, and so is text with anything but digits after an optional plus sign |
| HealthCodec.EncodeHealthReport | crates/transport/src/lib.rs:318-348 | the pushed lines are the report's lines, each terminated |
| HealthCodec.CollectRows | crates/transport/src/lib.rs:377-437 | rows are collected in order and the first bad one decides |
| HealthCodec.DecodeHealthReport | crates/transport/src/lib.rs:350-445 | header, then rows, with throughput read in every spelling of a float: signs, words, points and exponents |
| HealthCodec.DecodesToCanonical | crates/transport/src/lib.rs:318-445 | a report with clean ids decodes to itself but for throughputs, which become their rounding to four decimals, and absent newest sequences, which become the last ones |
| HealthCodec.DecodedIsCanonical | crates/transport/src/lib.rs:350-445 | whatever text decodes, its ids are clean and its newest sequences known |
| HealthCodec.HeaderIsCheckedFirst | crates/transport/src/lib.rs:350-376 | a header is refused for its magic exactly if it is not the magic followed by a tab or nothing, and accepted exactly if two numbers in range follow |
| HealthCodec.OtherMagicIsRefused | crates/transport/src/lib.rs:350-376 | a report whose first line bears another magic is refused for that, whatever follows |
| HealthCodec.BlankLinesAreSkipped | crates/transport/src/lib.rs:372-376 | blank lines between the rows make no difference |
| HealthCodec.BadRowsAreRefused | crates/transport/src/lib.rs:377-437 | after rows that can be read, a row of another kind, of the wrong length or with a chat number that cannot be read has the report refused, whatever follows |
| HealthCodec.OlderRowsReadAlike | crates/transport/src/lib.rs:377-437 | an older row, with a target throughput before the achieved one, reads as the row without it |
| HealthCodec.ReportRoundTrip | crates/transport/src/lib.rs:318-483 | a report survives exactly when its ids hold no tab or line feed, no last sequence lacks a newest one and every finite throughput is a whole number of ten-thousandths |
| SplitWeights.NormalizeInPlace | crates/client/src/path_strategy.rs:772-779 | divided by the total, or filled with the fallback |
| SplitWeights.ZeroFailedInPlace | crates/client/src/path_strategy.rs:485-499 | failed paths zeroed, the rest rescaled if anything is left |
| SplitWeights.WeightsAreADistribution | crates/client/src/path_strategy.rs:312-319 | weights are non-negative, zero for failed paths, and sum to one exactly when some path has not failed |
| SplitWeights.FreshPathsAreComparable | crates/client/src/path_strategy.rs:429-499 | a fresh usable path has at least 91/400 of any other's weight |
| SplitWeights.FreshPathKeepsAShare | crates/client/src/path_strategy.rs:429-499 | a fresh usable path among n gets at least 91 / (400 (n - 1) + 91) |
| PathPreference.BetterPathsWeighMore | crates/client/src/path_strategy.rs:429-499 | of two fresh usable paths, one at least as fast and with at least as great a newest number never weighs less; it weighs more exactly if its lag is less and below 78 packets, or it is faster, above a quarter of the average, and the other is below twice that |
| PathPreference.EqualThroughputsWeighLags | crates/client/src/path_strategy.rs:461-499 | with equal throughputs the weights stand as 1 - lag / 120, but not below 0.35 |
| PathPreference.BestIsGreatest | crates/client/src/path_strategy.rs:437-440 | lags are measured from the greatest number any path has reported |
| PathPreference.AverageBalances | crates/client/src/path_strategy.rs:441-456 | the average throughput balances those of the fresh usable paths, negative ones counted as zero |
| PathPreference.SilentPathsWeighLittle | crates/client/src/path_strategy.rs:456-470 | a path without a report in the last 1500 ms counts for a hundredth against the score of one with |
| SplitWeights.AdaptiveGroupPackets | crates/client/src/path_strategy.rs:824-859 | the suggested group size is always one the encoder's proofs allow for |
| SplitWeights.LongestGroupIffAllKeepUp | crates/client/src/path_strategy.rs:824-859 | groups of six exactly when no two reported numbers are 40 apart and every throughput is above the degraded threshold |
| SplitWeights.ShorterGroupsIff | crates/client/src/path_strategy.rs:824-859 | groups of three exactly when two reported numbers are 120 apart or a throughput is at most the bad threshold, groups of four without reports or otherwise when two are 40 apart or a throughput is at most the degraded threshold |
| SplitWeights.ThresholdsOfTheMean | crates/client/src/path_strategy.rs:838-849 | the thresholds are 40 and 15 percent of the mean throughput, but at least 0.10 and 0.05 |

## Left out

- iroh, QUIC and UDP input and output, asynchronous tasks and channels: replaced by steps over arbitrary events; send errors are not modelled.
- One clock reading per step, where the loop reads the clock several times while it handles one event.
- Fragment assemblies are values held in the receiver's map and replaced there; mutation through references into the map is not modelled.
- Where the receiver inserts a number into its seen set more than once for one packet, the model inserts it once.
- Reply routes, the response loop, the connection registry, the health connection loops, contexts, counters, terminal interfaces, status files and logging.
- Integrity.RunStaysHonest: one meaning per sequence number, so nothing is said about payloads after a flow has used up the number space; ordering is linear at the wrap, where packets past it that arrive early are dropped and a stale high number is skipped towards.
- Reordering.ReorderingIsUndone: one stretch of the stream that does not reach the wrap, from its first packet on; what happens once something has waited for the reorder delay is in the gap expiry laws.
- LossRecovery.OneLossPerGroupIsHarmless: for a sender from its first number on, with nothing ingested that failed to go out.
- FecRecovery.InsertFrameKeepsOk: the queue of frame bases is not bounded and may hold bases of frames already used, as in the code.
- Sender.SendPayloadIsWellSent: a payload too large for seven fragments, with no path to split over, or of no bytes under splitting sends no fragment, as in the code; which path carries a datagram, round-robin order and automatic path grouping enter only as conditions of each ingest.
- IEEE floating point: the rounded split totals are arbitrary numbers, and path weights and throughputs are reals.
- HealthCodec.DecodeHealthReport: a throughput is the real number its text spells, so binary rounding, overflow of large exponents to infinity and the sign of zero are not modelled; neither is the UTF-8 check.
- Manual split percentages: normalised by the same in-place passes, they would only add easy members.
- Strategy polling, `tc` calls, BLE, chat services, previews, the web application, command lines and identity tools: external systems and display.
