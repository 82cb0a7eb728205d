# RISCover in Dafny

RISCover is a differential CPU fuzzer: a server distributes inputs to clients,
each client runs instruction sequences and reports what happened, and the
server looks for clients that disagree. This project models the machinery
around the executed instructions and proves what it promises. The CPU itself
is an arbitrary function from inputs to outcomes.

`dafny verify dfyconfig.toml` checks everything.

## Structure

| files | what they model |
|---|---|
| `Bytes`, `ResultCodec`, `ResultRoundTrip`, `ResultWire` | packing of results on the client, parsing on the server, equality on both sides |
| `InputCodec` | packing of inputs on the server, walking them on the client |
| `Batching`, `Protocol`, `Transparency`, `Progress`, `Answering` | tickets, merging, sending, running, splitting and getting as a transition system, and what holds over every run |
| `SeqNumBatches` | batches of inputs that are generated on the client from sequence numbers |
| `MultiClient` | routing of tickets over several clients of one kind |
| `MemScan` | the search for changed bytes after a run |
| `DiffTree`, `DiffTreeRefinement`, `DiffTreeReports` | clustering of clients, the minimal tree of differences, and which of them are reported |
| `DecoderIndex`, `WordBits`, `DecoderOrder`, `InstructionCollection` | the decoder's hash index, and 32-bit words bit by bit |
| `Template`, `FieldBits`, `EncodingStrings` | generation of instructions from templates |
| `Enumeration`, `ScanTurns` | the two ways of running all undocumented opcodes |
| `Bits`, `Mt19937` | the random number generator, implemented twice |
| `ReproHex` | hexadecimal payloads of reproducer files |

Code that changes state is a class or a method with loops, proved against
functions on values; the theorems are lemmas about those functions and about
the runs built from them.

## What turned out to be conditional

- A batch that has been taken from the queue but not completely sent is
  neither queued nor in flight, and a failing send leaves it there. Ticket
  conservation therefore has five places, not four.
- The check on the size of a scheduled batch is commented out
  (`pyutils/server.py:397`). Entries above the limit stay queued for ever
  (`OversizeIsNeverSent`); all others are sent (`NoStarvation`). But sending and
  receiving share one loop, and it only receives when it has nothing to send or
  the pipe is full. Without single stepping, such an entry keeps the loop sending
  empty batches for ever, and no reply is read again, exactly when the bytes in
  flight, being sent and queued within the limit cannot fill the pipe
  (`SendingEndsIff`, `OversizeStopsReplies`, `HopelessRun`).
- The client asserts that its replies stay below a 10 MiB buffer
  (`client/src/diffuzz-client.c:624`). A batch is answered exactly when they do
  (`ClientAnswers`), and `BuildNeverAborts` gives a limit for which they always
  do.
- With sequence-number inputs the announced count is a number of results, but
  the client uses it as a number of inputs. It refuses the message when there
  are more inputs than results; otherwise every answer is right
  (`ReplyStartsRight`). Slots left over from earlier batches add frames behind
  the wanted ones. The server never reads these, but they can fill the client's
  output buffer (`StaleSlotsOverflow`); `HistoryAnswers` tells from the history
  of batches when they do.
- Tickets of a multi client keep a position in the client list. It stays right
  exactly when every client removed meanwhile stood behind it (`RunRoutes`).
- A scan worker whose client is lost ends with its chunk unanalysed, and every
  later chunk then waits for ever (`StuckIsComplete`).
- `Result.__eq__` ignores the other side's memory changes when its own are
  absent, so it is symmetric only between results of one memory mode
  (`ParsedEqualIsKey`). A build has one mode.
- The 32-bit progress field of the enumeration cannot hold a lone core's
  slice, whose length is 2^32 (`LoneCoreNeverFinishes`).
- The client folds both halves of a 64-bit seed into the generator, the server
  keeps the low half (`StreamsAgreeIff`).
- The mapping printer drops the bytes behind the last whole word, and the
  loader then aborts (`MappingRoundTrip`).
- The decoder sees a signal code modulo 2^32 and counters modulo 2^16; the
  views say so. Fault fields are zero without a signal
  (`client/src/lib/runner.c:346-351`), which the equality theorem uses.

## Model

| member | source | states |
|---|---|---|
| `Transparency.BatchingIsTransparent` | pyutils/server.py:396-493 | over every run of schedules, merges, sends, client batches, replies and gets in any order, with or without priority, what a ticket's getter receives is the bodies of that ticket's own inputs in order, and the same bytes as if the ticket had been sent alone |
| `Transparency.OversizeIsNeverSent` | pyutils/server.py:436-450 | in every reachable state a ticket with more inputs than the limit is in the queue and nowhere else |
| `Transparency.AnsweredWithinLimit` | pyutils/server.py:436-450 | every ticket being sent, in flight, answered or delivered is within the limit |
| `Transparency.AloneBytes` | client/src/diffuzz-client.c:527-634 | a ticket sent alone, with any bytes behind it in the client's buffer, is answered exactly if the reply passes the client's assertions, and then with exactly its own bodies |
| `Transparency.EndToEnd` | pyutils/server.py:415-424 | over every run, parsing what a ticket's getter receives yields one result per input, in order, each the view of what the machine did with that input; only for a ticket without inputs it fails with a struct error |
| `Transparency.TicketIsInOnePlace` | pyutils/server.py:402-493 | in every reachable state each issued ticket is in exactly one of queue, batch being sent, batch in flight, results, delivered, and occurs there once; no other ticket is anywhere |
| `Transparency.DeathReleasesGetters` | pyutils/server.py:415-422 | once the client is dead every getter proceeds; it gets data exactly if its results had arrived, and "unrelated" is false exactly for the tickets of the oldest batch in flight |
| `Transparency.RunDeath` | pyutils/server.py:495-510 | in every reachable state after the client's death the remembered tickets are those of the oldest batch in flight |
| `Transparency.MergeMoves` | pyutils/server.py:441-450 | an entry is either taken or keeps its order and moves up by the number of entries taken before it; the head is taken exactly if it fits at all |
| `Transparency.NoStarvation` | pyutils/server.py:431-450 | without priority entries, an entry at position p is sent within p + 1 merges, whatever else is queued or appended meanwhile, exactly when it is within the limit |
| `Transparency.FittingMoves` | pyutils/server.py:441-450 | an entry within the limit is taken or moves up, for any entries around it |
| `Transparency.OversizeStarves` | pyutils/server.py:396-400 | an entry above the limit, which the commented-out check would refuse, is not sent by any number of merges, and alone in the queue it is turned into empty batches |
| `Answering.AnswersIff` | pyutils/server.py:430-493 | in every reachable state with a living client and an unanswered ticket within the limit, some continuation without new tickets reads a reply with tickets exactly when the state is not hopeless and the client's assertions hold for the reply to the oldest waiting batch |
| `Answering.NeverStuck` | pyutils/server.py:430-493 | with a build whose client never aborts, that is exactly when the state is not hopeless |
| `Answering.NoOversizeIsHopeful` | pyutils/server.py:430-450 | no reachable state is hopeless with single stepping, or as long as every ticket is within the limit |
| `Answering.SendingEndsIff` | pyutils/server.py:431-453 | in every reachable state of the sending loop, merges and sends lead out of it exactly when the state is not doomed: without single stepping, an entry above the limit is queued and the bytes in flight, being sent and queued within the limit are below the in-flight limit |
| `Answering.OversizeStopsReplies` | pyutils/server.py:430-474 | from a doomed state on, a run without new tickets reads no reply, stays doomed, and every batch in flight stays there |
| `Answering.LoadStep` | pyutils/server.py:431-466 | only a reply takes bytes away, and no step but scheduling adds any or removes an entry above the limit |
| `Answering.OldestStays` | pyutils/server.py:436-493 | until it is answered, the oldest batch with tickets stays the oldest |
| `Answering.HopelessRun` | pyutils/server.py:396-474 | four steps lead to a hopeless state: a ticket within the limit is in flight and a ticket above it is scheduled |
| `Answering.AbortingRun` | client/src/diffuzz-client.c:247 | three steps lead to a client that will abort, with a body too long for its frame |
| `Progress.AbortsIff` | client/src/diffuzz-client.c:528-624 | the client aborts on its next message exactly when a frame of that batch exceeds 16 bits of length or the frames reach the output buffer |
| `Progress.BuildNeverAborts` | client/src/diffuzz-client.c:352 | a client never aborts in a build with at most m prefixes per input, m at most 15, if the limit times 4 + 4347 m is below 10 MiB |
| `Progress.BoundedWork` | pyutils/server.py:430-493 | if all queued entries fit and nothing new is scheduled, the number of merges, sends, client batches and replies of a run is bounded by four per queued entry, three for a batch being sent, two per message and one per reply |
| `Progress.QueueDrains` | pyutils/server.py:430-493 | so after that many of these steps every ticket has its results waiting or delivered |
| `Progress.EveryTicketIsAnswered` | pyutils/server.py:415-493 | a ticket within the limit, whatever else is queued or arrives, is answered once the run has had more merges than its queue position and the priority entries that came in, then a completed send, then a reply for each batch in flight |
| `Progress.LeavesQueue` | pyutils/server.py:436-450 | over every run a ticket within the limit moves up with each merge, back by one with each priority entry, until it leaves the queue |
| `Progress.IssuePlaces` | pyutils/server.py:408-413 | in every run a scheduled ticket goes to the end of the queue and moves no other; with priority it goes to position 0 and every other ticket one position back |
| `Progress.PriorityGoesFirst` | pyutils/server.py:408-446 | in every run a ticket within the limit scheduled with priority is the first in the next merged message, unless another priority entry comes in before |
| `Progress.FlightIsBounded` | pyutils/server.py:431-453 | in every state of every run all batches in flight but the newest have fewer than 524288 bytes together, and single stepping never has two batches under way |
| `Progress.LandsInOrder` | pyutils/server.py:480-493 | over every run a ticket in flight moves up with each reply until it is answered |
| `Protocol.RunKeeps` | pyutils/server.py:426-493 | the protocol invariant (queue entries, messages and replies belong to their tickets' inputs, replies and messages line up with the batches in flight, tickets are conserved) holds in every state of every run |
| `Protocol.StepKeeps` | pyutils/server.py:396-510 | each step of server, client, getter and failure preserves the protocol invariant |
| `Protocol.RunBatch` | client/src/diffuzz-client.c:510-636 | the client's batch loop, walking the buffer by its variable stride, produces the frames of the inputs it reads, or stops on an oversized count or message, a frame beyond 16 bits or a full output buffer |
| `Protocol.ClientAnswers` | client/src/diffuzz-client.c:516-634 | a message built by merging is answered exactly when its frames pass the length and buffer assertions, and then with one frame per input in order, whatever stale bytes the buffer holds |
| `Protocol.ReplyFitsIff` | client/src/diffuzz-client.c:247-624 | the client's assertions hold for a reply exactly when every body is shorter than 65536 bytes and the bodies with two bytes each are shorter than 10485760 together |
| `Protocol.TakeFramesRoundTrip` | pyutils/server.py:483-491 | cutting n frames out of a reply at the right offset returns exactly the n bodies and the offset behind them, whatever follows |
| `Protocol.DemuxRoundTrip` | pyutils/server.py:480-493 | splitting the reply of a batch gives each ticket of the batch the concatenated bodies of its own inputs |
| `Protocol.MergedMessage` | pyutils/server.py:436-446 | the merged message carries exactly the inputs of the taken tickets, in queue order, and at most the limit |
| `Protocol.TicketsOfSplit` | pyutils/server.py:441-450 | taken and remaining entries together hold the tickets of the queue, with multiplicity |
| `Batching.RealClient.SchedulePackedInputs` | pyutils/server.py:396-413 | a new ticket is queued in front or at the end, unless the packed inputs reach the in-flight limit |
| `Batching.RealClient.MergeQueue` | pyutils/server.py:434-453 | the loop over the queue takes what fits under the limit, in order, and leaves the rest |
| `Batching.RealClient.PopPicked` | pyutils/server.py:447-450 | the pops with a growing index shift leave exactly the entries that were not picked, in order |
| `Batching.RealClient.CommitSend` | pyutils/server.py:458-466 | after both messages are written the batch and its size are in flight |
| `Batching.RealClient.HandleReply` | pyutils/server.py:478-493 | the reply is split over the oldest batch; it fails exactly when a frame length cannot be read |
| `Batching.RealClient.LoopTest` | pyutils/server.py:431-453 | the sending loop goes round once more exactly while its condition holds, single stepping allows it and the queue is not empty; otherwise the process turns to receiving |
| `Batching.RealClient.NoReply` | pyutils/server.py:474-475 | without a reply in time the process turns back to sending |
| `Batching.RealClient.GetResults` | pyutils/server.py:415-424 | the ticket's bytes are handed out once, or the loss is reported with its unrelated flag |
| `Batching.RealClient.Fail` | pyutils/server.py:502-510 | the oldest batch in flight is remembered and all getters are released |
| `Batching.PicksSound` | pyutils/server.py:441-446 | the collected indices are ascending and are exactly those of the entries that fit when they are reached |
| `Batching.RemainingStep` | pyutils/server.py:447-450 | popping pick k at its shifted index leads from the queue without the first k picks to the queue without the first k + 1 |
| `SeqNumBatches.HistoryAnswers` | client/src/diffuzz-client.c:510-636 | over every history of sequence-number batches, the client answers all of them exactly when each has no more slots than results, is within the limit, and the entries last written to the slots it announces give a reply that passes the assertions; and every reply starts with the wanted bodies |
| `SeqNumBatches.BufferIs` | client/src/diffuzz-client.c:524-536 | each slot of the buffer holds the entry of the last batch that reached it |
| `SeqNumBatches.SmallLimitAnswers` | client/src/diffuzz-client.c:528-624 | with a buffer that starts without repeat counts and the square of the limit times the largest frame below the output buffer, every history of batches within the limit and with no more slots than results is answered |
| `SeqNumBatches.ReplyStartsRight` | client/src/diffuzz-client.c:528-536 | whatever the client answers starts with the wanted bodies; slots left in the buffer only add bodies behind them |
| `SeqNumBatches.SplitIgnoresStale` | pyutils/server.py:484-492 | every part of an answered batch is split off correctly, whatever the unused buffer slots held |
| `SeqNumBatches.PositiveSlots` | pyutils/inp.py:53-67 | inputs that all ask for at least one result are never more than the results |
| `SeqNumBatches.RefusedExample` | client/src/lib/connection.c:79-85 | an input that asks for no result makes the message longer than the announced count allows, and the client ends |
| `SeqNumBatches.StaleSlotsOverflow` | client/src/diffuzz-client.c:528-624 | after an answered batch, a slot it left over makes a later batch overflow the output buffer although that batch's own reply fits |
| `MultiClient.RunRoutes` | pyutils/server.py:176-207 | over every run of reservations, recordings, lookups, losses, failed reservations and failed removals with any number of tickets, a pending ticket is routed to the client it was reserved for, number ticket modulo list length, exactly when every client removed since stood behind that one |
| `MultiClient.RouteStaysIff` | pyutils/server.py:176-202 | for a list and removals, a position stays right exactly when every removal was behind it |
| `MultiClient.PositionStays` | pyutils/server.py:177-185 | a pending ticket keeps the position it was given, over every run |
| `MultiClient.MultiClient.Reserve` | pyutils/server.py:176-182 | tickets are given out in turn and assigned round robin; with no client left the assignment fails |
| `MultiClient.MultiClient.Record` | pyutils/server.py:184-185 | the client's own ticket and its position are remembered under the ticket |
| `MultiClient.MultiClient.Resolve` | pyutils/server.py:188-192 | the entry is used up and its position is looked up in the present list |
| `MultiClient.MultiClient.Lose` | pyutils/server.py:199-202 | the first occurrence of a lost client leaves the list and the others close up |
| `MultiClient.RoutingExample` | pyutils/server.py:180-202 | of two tickets of one client, the one looked up before an earlier client is lost reaches it and the other goes to the wrong client |
| `InputCodec.PackRoundTrip` | pyutils/inp.py:79-93 | the client reads back the input that was packed, and its stride is the packed length |
| `InputCodec.PackLayout` | pyutils/inp.py:82-93 | in a packed input the registers come first, then the length, the flag, zeros up to the next multiple of four, and the words, lowest byte first |
| `InputCodec.WalkRoundTrip` | client/src/diffuzz-client.c:527-627 | walking a buffer of packed inputs by the variable stride visits exactly these inputs, whatever follows them |
| `InputCodec.PackAllAppend` | pyutils/inp.py:512-513 | packing concatenated input lists concatenates the packed bytes |
| `InputCodec.PackAllFits` | client/src/diffuzz-client.c:516-525 | packed inputs fit the buffer of n maximal inputs |
| `ResultRoundTrip.WireRoundTrip` | pyutils/result.py:251-328 | for every buildable flag combination, parsing a packed result consumes exactly its bytes and yields its signal, fault, counters and memory changes, its register map holds under each register of the client's struct its new value exactly if it changed, and overlaying it on the registers before gives those after |
| `ResultRoundTrip.ReplyRoundTrip` | client/src/diffuzz-client.c:235-274 | the same for a whole reply body, single or multi |
| `ResultRoundTrip.BodiesRoundTrip` | pyutils/result.py:345-379 | the parsing loop turns concatenated reply bodies into their results, in order |
| `ResultRoundTrip.InnerRoundTrip` | client/src/diffuzz-client.c:140-233 | parsing one packed inner result, whatever follows it, gives its view and its length |
| `ResultRoundTrip.RegMapIsChangeMap` | pyutils/result.py:274-287 | the parsed register map has exactly the registers that changed, with their new values |
| `ResultRoundTrip.OverlayRestores` | pyutils/result.py:274-287 | a map of the changed registers laid over the registers before gives the registers after |
| `ResultRoundTrip.ParsedEqualIsKey` | pyutils/result.py:125-143 | between results of the same memory mode, the server's comparison is an equivalence: equality of all fields but the counters |
| `ResultRoundTrip.EqualityAgrees` | client/src/lib/runner.c:2002-2027 | for equal registers before, server-side equality of two parsed results coincides with client-side equality of the original outcomes |
| `ResultRoundTrip.InnerBound` | client/src/diffuzz-client.c:140-233 | no packed inner result with up to 100 memory changes exceeds 4347 bytes, on either architecture |
| `ResultRoundTrip.FrameFits` | client/src/diffuzz-client.c:253-272 | a body of m prefixes has at most 2 + 4347 m bytes, so the 16-bit frame length holds every single result and every multi result of up to 15 prefixes |
| `ResultCodec.LayoutsAgree` | pyutils/util.py:32-100 | for every buildable flag combination the register the client writes under a wire index is the register the server's table has there, with the size the parser reads, and names and indices are distinct |
| `ResultCodec.WireIndices` | pyutils/util.py:59-100 | the index of every register in numbers: on RISC-V fcsr is 31, float i is 32 + i, vector i is 64 + i; on AArch64 pstate is 32, fpsr 33, float or vector i is 34 + i |
| `ResultCodec.InnerLayout` | client/src/diffuzz-client.c:140-230 | the place of every field in a packed result in numbers |
| `ResultWire.PackHead` | client/src/diffuzz-client.c:143-152 | signal and counters are written to the buffer as encoded, nothing else changes |
| `ResultWire.PackRegs` | client/src/diffuzz-client.c:154-204 | the changed registers are written behind their count, which is filled in last |
| `ResultWire.PackFault` | client/src/diffuzz-client.c:206-213 | the fault fields are written exactly when there was a signal |
| `ResultWire.PackMem` | client/src/diffuzz-client.c:220-228 | one memory change with its captured prefix is written as encoded |
| `ResultWire.PackMems` | client/src/diffuzz-client.c:219-229 | all recorded memory changes are written in order |
| `ResultWire.PackTail` | client/src/diffuzz-client.c:215-230 | the memory part is written exactly when memory is checked |
| `ResultWire.PackInnerResult` | client/src/diffuzz-client.c:140-233 | the buffer holds the encoding of the outcome at the offset and is unchanged elsewhere |
| `ResultWire.PackResult` | client/src/diffuzz-client.c:235-251 | a single result is framed with tag and length |
| `ResultWire.PackResults` | client/src/diffuzz-client.c:253-274 | a multi result is framed with tag, count and length |
| `ResultWire.ReadRegs` | pyutils/result.py:274-287 | the register loop fills the map as specified, with its errors |
| `ResultWire.ReadMems` | pyutils/result.py:306-318 | the memory loop fills the list as specified, with its errors |
| `ResultWire.ParseOneResult` | pyutils/result.py:251-328 | the cursor-advancing parser computes the specified result, consumed length or error |
| `ResultWire.ParseFullSeq` | pyutils/result.py:330-343 | the same for a multi result |
| `ResultWire.ParseResults` | pyutils/result.py:345-379 | the same for all results of a ticket, including the failures on empty or overrun data |
| `MemScan.Scan` | client/src/lib/runner.c:549-651 | the recorded changes are the first runs of differing bytes up to the cap, in order, each with the right start, length, first 16 bytes at most and FNV-1a checksum; the flush behind the loops is never reached |
| `MemScan.FnvIs` | client/src/lib/runner.c:579-589 | the checksum of nothing is 0x811c9dc5, and multiplying a checksum by the inverse of 16777619 and taking the exclusive or with the checksum of all but the last byte gives back the last byte |
| `MemScan.JoinedIsNext` | client/src/lib/runner.c:596-619 | runs go on across mappings exactly where the addresses do |
| `MemScan.ScanMapping` | client/src/lib/runner.c:567-638 | one mapping advances the scan, keeping a run open only into an adjacent, differing next mapping |
| `MemScan.ConsumeDiff` | client/src/lib/runner.c:582-591 | the inner loop extends the open run to the next equal byte or the mapping's end, folding prefix and checksum |
| `MemScan.SkipAndStart` | client/src/lib/runner.c:568-581 | without an open run the scan skips to the next differing byte and opens a run there |
| `MemScan.CommonPrefix` | client/src/lib/util.c:109-123 | the chunked comparison finds the length of the longest common prefix |
| `MemScan.Boundary` | client/src/lib/runner.c:596-619 | the look-ahead at a mapping's end decides exactly whether the run continues |
| `MemScan.RunsAreMaximal` | client/src/lib/runner.c:549-651 | the runs are the maximal runs of differing bytes, ascending and disjoint, and every differing byte lies in one |
| `MemScan.MaximalRunsAreListed` | client/src/lib/runner.c:549-651 | every maximal run is among them |
| `MemScan.EqualMemoryEqualLists` | client/src/lib/runner.c:1986-1999 | equal final memories give pairwise equal changes, whatever stale bytes the capture buffers held, cap or not |
| `MemScan.EqualListsIffEqualMemory` | client/src/lib/runner.c:1986-1999 | for complete scans of the same mappings with no run over 16 bytes, the change lists are equal exactly when the final memories are |
| `DiffTreeRefinement.FindMinimalDiffTree` | pyutils/difffuzzserver.py:61-117 | for any number of clients the search records exactly the splits of the refinement, of which SeparatedIff, SplitLength and ClassSeparates say whom they separate and where, and fewer than there are clients, or none |
| `DiffTreeRefinement.RefinementInvariant` | pyutils/difffuzzserver.py:61-117 | at every prefix length the classes are disjoint, have at least two clients, and two clients share a class exactly when they agree, without signal, on every shorter prefix; every lookup succeeds |
| `DiffTreeRefinement.LookupsSucceed` | pyutils/difffuzzserver.py:68-76 | members of a class have all reported for the next prefix, because a client stops reporting only after a signal |
| `DiffTreeRefinement.LevelKeeps` | pyutils/difffuzzserver.py:74-111 | one level of refinement preserves the invariant |
| `DiffTreeRefinement.FewSplits` | pyutils/difffuzzserver.py:86-113 | at most one split fewer than there are clients is recorded, for any filter, and none for a single client |
| `DiffTreeRefinement.SeparatedAtMostOnce` | pyutils/difffuzzserver.py:86-103 | any two clients are separated by one recorded split if their class was reported when they first differed, and by none otherwise |
| `DiffTreeReports.SeparatedIff` | pyutils/difffuzzserver.py:36-103 | two clients are separated by one recorded split, and only one, exactly when at their first difference, among all clients that agree with them so far, two results differ that are both illegal instructions or both not, and the same holds of two founding filtered results; otherwise by none |
| `DiffTreeReports.RemoveUnusableIff` | pyutils/difffuzzserver.py:36-50 | more than one cluster is usable exactly when two clusters have keys that are both illegal instructions, signal 4, or both not |
| `DiffTreeReports.UsableClassIff` | pyutils/difffuzzserver.py:76-84 | for a class this is: two members differ, and both or neither ran into an illegal instruction |
| `DiffTreeReports.FilteredIff` | pyutils/difffuzzserver.py:86-90 | for the filtered clusters the same over the founding results: those which no earlier founding result equals, by the filter or exactly |
| `DiffTreeReports.ShouldSplitIff` | pyutils/difffuzzserver.py:76-91 | a class is reported exactly when both hold |
| `DiffTreeReports.ClassIsPeers` | pyutils/difffuzzserver.py:61-111 | at every prefix length a class consists of all clients that agree with any one of its members so far, in the order of the clients |
| `DiffTreeReports.SplitLength` | pyutils/difffuzzserver.py:65-91 | a recorded split carries the length of the prefix at which the clients it separates first differ |
| `DiffTreeReports.LenientEqualIff` | pyutils/result.py:195-213 | lenient results are equal exactly when the signals are, 7 counting as 11, and so is everything else the comparison looks at, unless the signal is an alarm |
| `DiffTreeRefinement.ClassSeparates` | pyutils/difffuzzserver.py:76-91 | the clusters of a class separate exactly its members with different results |
| `DiffTreeRefinement.ReportingIsFirst` | pyutils/difffuzzserver.py:86-103 | a class that reports two clients as different does so at their first difference |
| `DiffTreeRefinement.FirstDifferenceIsLookedAt` | pyutils/difffuzzserver.py:98-111 | clients that first differ at a prefix are still in one class there |
| `DiffTreeRefinement.RefineLevel` | pyutils/difffuzzserver.py:74-111 | the loop over the classes computes the next classes and the level's splits |
| `DiffTreeRefinement.CollectContinuing` | pyutils/difffuzzserver.py:98-109 | signal-free clusters of more than one client go on |
| `DiffTreeRefinement.Lookup` | pyutils/difffuzzserver.py:75-88 | the results of a class are looked up exactly and leniently in class order |
| `DiffTree.ClusterByResults` | pyutils/server_util.py:14-18 | clients are gathered under the first stored result that compares equal, for any comparison |
| `DiffTree.ClustersPartition` | pyutils/server_util.py:14-18 | with real results the clusters partition the clients by result |
| `DiffTree.SortedBySize` | pyutils/difffuzzserver.py:79-80 | clusters are ordered largest first |
| `DiffTree.SortIsStable` | pyutils/difffuzzserver.py:79-80 | clusters of the same size keep their order |
| `DiffTree.CollectLevel` | pyutils/difffuzzserver.py:119-127 | the results of one prefix length are those of the clients that got that far |
| `DiffTree.RunFullSeq` | client/src/lib/runner.c:660-671 | prefixes are run in order until the first signal, which is included |
| `InstructionCollection.InstructionCollection.Disassemble` | pyutils/instruction_collection.py:145-155 | the answer is None exactly when no instruction matches; otherwise it names a match of maximal mask bit count, no match fixes a strict superset of its bits, and it is the last mnemonic among identical encodings |
| `InstructionCollection.DecodeIsRight` | pyutils/instruction_collection.py:21-155 | the same of the index search, for patterns in mnemonic order and any index bits |
| `WordBits.BitCountIs` | pyutils/instruction_collection.py:91-95 | the bit count of a mask is the number of positions below 32 whose bit is set |
| `WordBits.SubmaskHasFewer` | pyutils/instruction_collection.py:91-95 | a mask strictly inside another has fewer bits, so the pattern of the larger one wins |
| `InstructionCollection.NameOrder` | pyutils/instruction_collection.py:22-23 | mnemonics are ordered lexicographically: a prefix first, otherwise by the first differing character |
| `InstructionCollection.IndexBitsAreBest` | pyutils/instruction_collection.py:27-42 | the index uses the eleven bits that the fewest patterns leave free, the lower one first where as many do |
| `InstructionCollection.UnusedIs` | pyutils/instruction_collection.py:28-35 | what is counted for a bit are the patterns whose mask lacks it |
| `DecoderIndex.DecodeIsMostSpecific` | pyutils/instruction_collection.py:44-97 | for any well-formed patterns and any index bits the index search refines the linear scan for a most specific match |
| `DecoderOrder.DecodeIsDetermined` | pyutils/instruction_collection.py:88-97 | and among matching masks of equal bit count the one entered last in the word's bucket wins |
| `DecoderOrder.ChoiceIsUnique` | pyutils/instruction_collection.py:88-97 | these conditions hold of one pattern only |
| `DecoderOrder.SearchSorted` | pyutils/instruction_collection.py:92-97 | searching the reversed, sorted rows finds the last of the best rows |
| `DecoderOrder.BuildMasks` | pyutils/instruction_collection.py:64-81 | the rows of a bucket stand in the order in which their masks were first entered |
| `DecoderOrder.ReachesIff` | pyutils/instruction_collection.py:68-71 | a pattern is in a word's bucket exactly when it agrees with the word on the index bits it fixes |
| `DecoderIndex.CombinationsComplete` | pyutils/instruction_collection.py:44-58 | the combinations hold every subset of the index bits |
| `DecoderIndex.MatchReaches` | pyutils/instruction_collection.py:68-71 | a matching pattern is entered in the bucket that the word selects |
| `DecoderIndex.BuildStores` | pyutils/instruction_collection.py:64-81 | a bucket stores under each mask and value the last pattern entered with them |
| `DecoderIndex.SearchFacts` | pyutils/instruction_collection.py:145-155 | the search over sorted rows returns a stored match of maximal bit count, or None if there is none |
| `InstructionCollection.InstructionCollection.UpdateMaps` | pyutils/instruction_collection.py:21-97 | the index is rebuilt for the sorted instructions |
| `InstructionCollection.InstructionCollection.RemoveInstructions` | pyutils/instruction_collection.py:137-143 | exactly the named instructions leave and the index is rebuilt; it fails exactly when a mnemonic is unknown or named twice, with the index still that of before |
| `InstructionCollection.InstructionCollection.GenUnknown` | pyutils/instruction_collection.py:183-191 | the generated words are those of the range that do not decode and pass the filter, in order, none for an empty or reversed range; it fails exactly when the range leaves the opcode space |
| `InstructionCollection.UnknownsAreUndocumented` | pyutils/instruction_collection.py:183-191 | these are what an exact enumeration of the unknown words runs |
| `Template.GeneratedStaysInTemplate` | client/src/lib/aarch64/randomdifffuzzgenerator.h:30-136 | for non-overlapping fields and any choices the generated word matches its template, and the decoder names it by a pattern at least as specific |
| `Template.StaysInTemplateIff` | client/src/lib/aarch64/randomdifffuzzgenerator.h:36-130 | for arbitrary fields, the word stays in its template under all choices exactly when no free bit overlaps a bit fixed to zero |
| `Template.InitPickedInstr` | client/src/lib/aarch64/randomdifffuzzgenerator.h:40-131 | the field loop ORs each chosen value into the free bits of its field |
| `Template.ChosenBits` | client/src/lib/aarch64/randomdifffuzzgenerator.h:48-130 | a choice touches only free bits of its field, and can set all of them or none |
| `FieldBits.FieldReadsBack` | client/src/lib/aarch64/randomdifffuzzgenerator.h:36-130 | for fields that lie apart, the generated word read at a field is the field's value where the field fixes it and the chosen number elsewhere, and the combined mask and value read there are the field's own |
| `FieldBits.CombinedBits` | pyutils/instruction_collection.py:169-178 | a bit of the combined mask or value is set exactly when a field sets it |
| `Template.FreeApartFromMask` | client/src/lib/aarch64/randomdifffuzzgenerator.h:48 | free bits of non-overlapping fields are outside the combined mask |
| `Template.ValueInMask` | pyutils/instruction_collection.py:169-178 | the combined value lies in the combined mask |
| `Template.LowOnesIsShift` | client/src/lib/aarch64/randomdifffuzzgenerator.h:48 | the low-ones mask is one shifted by the width, minus one |
| `EncodingStrings.SplitEncoding` | pyutils/riscv/riscv_opcodes_to_instruction_collection.py:18-39 | the runs are exactly the maximal runs of fixed digits, lowest first, with their digits |
| `EncodingStrings.SplitFieldsApart` | pyutils/riscv/riscv_opcodes_to_instruction_collection.py:98-106 | the fields built from them do not overlap, so they form a template, fully fixed encodings included |
| `EncodingStrings.EncodingBits` | pyutils/riscv/riscv_opcodes_to_instruction_collection.py:18-106 | bit i of the combined mask of these fields is set exactly when digit i from the right is not a dash, bit i of the combined value exactly when it is a one |
| `Enumeration.EnumerationIsExact` | client/src/undoc-enum.c:311-327 | the slices of all cores of a type together run every undocumented word exactly once and no documented one, for any core count |
| `Enumeration.RunCoreType` | client/src/undoc-enum.c:311-328 | the workers of a type, on one ranges file, run exactly the undocumented words, and each reports its whole slice in the end |
| `Enumeration.Worker` | client/src/undoc-enum.c:159-273 | a worker started anywhere in the space runs exactly the undocumented words of its slice, in order, with every range access in bounds and progress ascending to the slice's length |
| `Enumeration.WalkRange` | client/src/undoc-enum.c:179-273 | one round runs or skips one range, clipped to the slice, and reports the progress |
| `Enumeration.RunRange` | client/src/undoc-enum.c:180-191 | the inner loop runs the words of an undocumented range that lie in the slice |
| `Enumeration.SkipTo` | client/src/undoc-enum.c:159-168 | the skipping loop stops at the range that holds the slice's start |
| `Enumeration.ListEncodingGaps` | misc/undoc/list_encoding_gaps.py:31-94 | the file encodes the documented predicate over the whole space; it is written completely exactly when the assertions on the first and last word and on the range lengths hold |
| `Enumeration.SplitsEncode` | misc/undoc/list_encoding_gaps.py:58-85 | the split points found so far encode the words seen so far |
| `Enumeration.SlicesTile` | client/src/undoc-enum.c:320-325 | the slices are adjacent and cover the space |
| `Enumeration.FinishedIff` | client/src/undoc-enum.c:355-376 | with two or more cores, the summed 32-bit progress reaches the whole space exactly when every worker has covered its slice |
| `Enumeration.SliceFitsField` | client/src/undoc-enum.c:124-128 | with two or more cores no slice length overflows the 32-bit field |
| `Enumeration.LoneCoreNeverFinishes` | client/src/undoc-enum.c:272-376 | a lone core's progress wraps to zero at the end, so its type never counts as finished |
| `ScanTurns.RunKeeps` | server/undocfuzz-scan.py:47-84 | over every interleaving of any number of workers, any of which may end on a lost client: chunks follow each other, unfinished chunks are held by their workers, turns follow claims, the log is the analysed words so far |
| `ScanTurns.ChunksTile` | server/undocfuzz-scan.py:50-55 | every word up to the counter lies in exactly one claimed chunk, and chunks stay within the scanned range |
| `ScanTurns.OneAnalyserInOrder` | server/undocfuzz-scan.py:73-84 | at most one worker analyses at a time, and chunks are analysed in claim order |
| `ScanTurns.OldestCanProceed` | server/undocfuzz-scan.py:73-84 | while a claimed chunk is not analysed, one worker holds the oldest alone, and it can take its next step exactly unless it ended on a lost client |
| `ScanTurns.NoTurnPassesAbandoned` | server/undocfuzz-scan.py:66-84 | in every reachable state the turns stop at a chunk whose worker ended on a lost client |
| `ScanTurns.StuckMeans` | server/undocfuzz-scan.py:47-84 | when no worker can move, exactly the chunks before the oldest abandoned one have been analysed and logged |
| `ScanTurns.LogIsPrefix` | server/undocfuzz-scan.py:77-84 | what has been analysed is always a prefix of the unknown words of the range |
| `ScanTurns.StuckIsComplete` | server/undocfuzz-scan.py:47-84 | when no worker can move, the scan is complete (all workers stopped, every unknown word analysed once, in order, and counted) exactly if no claimed chunk was abandoned |
| `ScanTurns.AbandonedRun` | server/undocfuzz-scan.py:50-68 | two steps lead to a stuck scan that is not complete: a claim and a lost client |
| `ScanTurns.RunsEnd` | server/undocfuzz-scan.py:47-84 | every run is finite, with a bound on its length |
| `ScanTurns.Counters.ClaimChunk` | server/undocfuzz-scan.py:50-55 | claiming advances the counter by a step, cut at the end, or raises the finished flag |
| `ScanTurns.Counters.EndTurn` | server/undocfuzz-scan.py:81-84 | ending a turn adds the inputs and advances the turn by a step |
| `Mt19937.StreamsAgreeIff` | pyutils/generation/rng.py:9-35 | over all 64-bit seeds the two generators produce the same infinite stream exactly for seeds below 2^32; for others they differ within 624 outputs |
| `Mt19937.StreamDetermines` | client/src/lib/rng.c:11-35 | 624 equal outputs imply equal first words |
| `Mt19937.TwistStep` | client/src/lib/rng.c:11-20 | twisting slot i in place, reading slots of both windows, extends the next window by one word |
| `Mt19937.TemperInjective` | client/src/lib/rng.c:28-32 | the output function loses nothing |
| `Mt19937.SeedWord` | client/src/lib/rng.c:3-7 | each of the first 624 words is 1812433253 times the word before, mixed with itself shifted by 30, plus the position, modulo 2^32 |
| `Mt19937.WordBit` | client/src/lib/rng.c:11-19 | the bits of every later word in terms of the words 624, 623 and 227 places before it and the constant 0x9908B0DF |
| `Mt19937.OutputBit` | client/src/lib/rng.c:28-32 | the bits of an output in terms of the bits of its word, with the shifts 11, 7, 15, 18 and the two masks |
| `Mt19937.ClientFirstBit` | client/src/lib/rng.c:4 | the first word is the exclusive or of the halves of the seed, bit by bit |
| `Mt19937.ClientRng.constructor` | client/src/lib/rng.c:3-9 | the array becomes the first window of the sequence whose first word combines both halves of the seed |
| `Mt19937.ClientRng.Twist` | client/src/lib/rng.c:11-21 | the array becomes the next window of the recurrence |
| `Mt19937.ClientRng.Next` | client/src/lib/rng.c:23-35 | the k-th call returns output k of the sequence |
| `Mt19937.SharedRng.constructor` | pyutils/generation/rng.py:5-12 | the list becomes the first window of the sequence whose first word is the low half of the seed |
| `Mt19937.SharedRng.Twist` | pyutils/generation/rng.py:14-20 | the list becomes the next window of the recurrence |
| `Mt19937.SharedRng.Next` | pyutils/generation/rng.py:22-35 | the k-th call returns output k of the sequence |
| `ReproHex.MappingRoundTrip` | client/src/lib/runner.c:1298-1302 | loading a printed mapping restores its bytes exactly when its size is a multiple of eight; otherwise the loader aborts |
| `ReproHex.WordsReprint` | client/src/lib/runner.c:1814-1828 | every lower-case payload of whole words is what the printer writes for the bytes loaded from it |
| `ReproHex.PrintMapping` | client/src/lib/runner.c:1298-1302 | a mapping is printed word by word with 16 digits each |
| `ReproHex.LoadMapping` | client/src/lib/runner.c:1804-1829 | blanks, quote and prefix are skipped; the digits are loaded if there are exactly two per byte in whole words |
| `ReproHex.PrefixIsSkipped` | client/src/lib/runner.c:1804-1809 | white space, one opening quote and the prefix 0x or 0X are skipped, whatever follows |
| `ReproHex.PlainPayload` | client/src/lib/runner.c:1804-1809 | what starts with none of these is left as it is |
| `ReproHex.DigitIs` | client/src/lib/runner.c:1607-1612 | the value of a digit is its position in 0123456789abcdef or 0123456789ABCDEF |
| `ReproHex.NibbleIs` | client/src/lib/runner.c:1607-1612 | every other character has the value -1 |
| `ReproHex.LoadWord` | client/src/lib/runner.c:1820-1827 | a group of digits gives the bytes of its value, least significant first |
| `ReproHex.ParseHexLeBytes` | client/src/lib/runner.c:1615-1630 | for every string the buffer gets the string's numeric value modulo its capacity, other characters counting as zero |
| `ReproHex.VecRoundTrip` | client/src/lib/runner.c:1720-1740 | a printed register is read back, whatever follows it on the line |
| `ReproHex.ShortNumerals` | client/src/lib/runner.c:1615-1630 | numerals of any length up to the register's, odd ones too, keep their value |
| `ReproHex.PrintVec` | client/src/lib/util.c:38-43 | a register is printed highest byte first |
| `ReproHex.VecValue` | client/src/lib/util.c:38-43 | read as a number, the printed register is its little-endian value |
| `ReproHex.LoadVec` | client/src/lib/runner.c:1720-1740 | the digits of a register line, at most two per byte, are parsed into the register |

## Left out

- Execution of instructions, signal handlers, timers, memory mapping and address layout: a machine is an arbitrary function from inputs to outcomes.
- Sockets, select, compression, processes and locks: channels are lossless ordered queues that may die, and a region under a lock is one step.
- A client that dies in the middle of a reply, or on one of its own assertions, is the step that loses the client; partial messages are not modelled.
- Byte layout of sequence-number inputs and the generator that expands them: batches of them are sequences of records, and the bodies an arbitrary function. What the client's buffer holds before the first batch is arbitrary.
- Selection of register values by index (`decode_regs`, `expand_regs`): the register part of an input is a string of bytes.
- `num_regs` and the choice of immediates and registers in the generators: chosen field values are arbitrary.
- Weighted selection of instructions, extensions, assembling, MIDR tables, cpuinfo parsing, pinning, archives, logging, colours and command lines.
- YAML around the hexadecimal payloads of reproducers, and the parsing of their addresses and sizes.
- Hashes of results: a dictionary is a list of keys compared in insertion order, which is what equal hashes give.
- Custom choices and ranged random integers: they are one remainder on top of an output.
- MemScan.Scan: lengths and indices are unbounded, while the code's are 32 bits wide; it agrees with the code for mappings of less than 2^32 bytes in all.
- Template.InitPickedInstr: fields wider than 30 bits are excluded, because the generator's shift of a signed one is undefined in C there.
- ScanTurns.RunKeeps: is about positive steps. Zero does not reach the workers: as an argument it counts as absent, and the default is the in-flight limit divided by the size of three inputs.
- ScanTurns.StuckIsComplete: the analysis of a word is its place in the log; files, reproducers and the progress marks are not modelled.
- Mt19937.ClientRng.Next: the 32-bit variable is a number kept below 2^32 by explicit conversions, and the returned 64-bit value is the same number.
- Enumeration.RunCoreType: the workers run one after the other here and as processes in the code; they share nothing but their progress fields.
- DiffTreeRefinement.FindMinimalDiffTree: assumes results of one memory mode, and results of all prefixes collected before the search, as its caller passes them.
