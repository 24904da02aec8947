# dkftpbench in Dafny

dkftpbench is an event-driven load generator: thousands of simulated FTP users in one process, driven by a
readiness poller and a timer queue. This project models the data structures and state machines that its
correctness rests on, and proves what they promise over every input, every run and every reachable state.

* **Scheduler** (`EClock`, `HeapKeys`, `SkedSpec`, `Sked`). Times wrap; the comparison is an order only inside half
  the clock's range. The indexed binary heap, with deletion from the middle, refines a map from client to time, and
  `RunAll` produces exactly the legal dispatch logs over that map.
* **Pollers**. `PollerSigio` threads a circular doubly linked ready list through its table and refines `SigioSpec`,
  where edge-triggered signals become level-triggered events. `PollerPoll` (gap-free arrays, downward scan, described
  by `PollSpec`) and `PollerSelect` (bit sets, upward scan, described by `SelectSpec`) both refine the map of
  `PollerMap` from descriptor to client and mask. Callbacks may make any calls in the middle of a pass; where that can
  spoil the pass, the exact calls are named.
* **Buffered i/o** (`LineSplit`, `Nbbio`). The ring buffer refines a FIFO queue under short and failing reads and
  writes. The resumable line reader agrees with a reference definition that splits the whole stream in two passes.
* **Transfers** (`Throttle`, `PipeSpec`, `Pipe`). The integer arithmetic with a carried remainder keeps a transfer
  within its rate, and the object that sleeps does so in the real scheduler class.
* **Protocol** (`HostPort`, `FtpProto`). The client side of RFC 959: replies of several lines (section 4.2) can be
  erased to their first, and a PASV reply in the host-port form of section 4.1.2 is read back as printed.
* **Users** (`Population`, `PlatoonSpec`, `Platoon`). The counts by stage equal the users in each stage, and the ramp-up
  ends without overshooting. Over every run nobody is started after the first stop, and every user ever started is
  counted once, as alive or as stopped.

Objects that the program updates in place are classes whose methods are proved against functions or relations over a
value; the properties of whole runs are lemmas about those. Callbacks are a parameter `script`: what the k-th callback
of a run does. What the kernel answers (signals, poll results, byte counts, error numbers, the clock) is a parameter
too, with no assumption beyond what the call promises. Ghost parameters named `base` name the half of the clock that a
call looks at. In `EClock` the clock word is `[-h, h)` for any positive `h`, with subtraction wrapping modulo `2h`.

Some properties one might expect are false of the code. For each there is a run or an input that shows it, and the exact
condition under which the code is right:

* exactly-once delivery of `PollerPoll`: deleting an unscanned entry while the last one is scanned and flagged returns
  that one twice, and can use up `m_rfds` so that another is never returned; adding below the cursor in a slot with bits
  left in it delivers old bits to a new client (`DeletingUnscannedRepeatsAndLoses`, `ReopeningBelowCursorGetsStaleBits`).
  `PendingShrinksIffNotSpoiled` says that these two calls, and no others, do so;
* exactly-once delivery of `PollerSigio`: taking the last of several off the list with the cursor on it starts the pass
  again (`DeletingLastRestartsPass`, `RemovalRestartsIffAtEnd`), and so does listing a returned descriptor again; these
  two, and no others, do so (`FreshIffNoRepeat`). A listed descriptor 0 ends a pass (`PassReturnsEachListedOnce`);
* the rate bound: POLLHUP makes the pipe read before its time (`HangupExceedsRate`). Over every run the excess is at most
  what the rate allows for the ticks read early (`BytesBound`), and there are none without POLLHUP (`RateBound`);
* the clock comparison, when the ticks are kept in an `int` and compared as a `long`: it is right if and only if the
  clock has not wrapped between the two times (`NarrowClockRightIffSameTurn`). `Sked` and `Pipe` assume one width for both;
* waking a pipe whose data connection was closed while it slept on some event fails an assertion, and only then
  (`WakingReplaysUnion`, `Pipe.Wake`);
* an event that finds the pipe idle fails an assertion, if and only if the data connection was opened while it was idle
  (`ReadyAbortsIffOpenedIdle`), as it is when `get` is called before the last command is done (`GetBeforeDone`);
* a user that is already stopped is put on the dead list again, and then deleted twice, by an error (`FtpCmdDone`) or by
  a read that is too slow (`HandleDataIo`), and only by these (`Stop`, `Reap`); any other read of some bytes deletes such a
  user while it is reading, and does so to no user that still lives. `HangupThenRead` is a run of each kind;
* starting a transfer: a pipe whose last command failed may still have its timeout queued, and then the next `get` aborts
  (`GetAfterFailedGet`). With a control connection it aborts if and only if the pipe is still scheduled (`Pipe.Get`);
* adding a descriptor that is monitored already spoils the count of entries of `PollerSigio`, and the ring if it is
  listed, and the table of `PollerPoll`; adding any other does not (`PollerSigio.Add`, `PollerPoll.Add`);
* the end of a reply of several lines: a line in the middle of it that begins with the same code, padded, as section 4.2
  of RFC 959 asks for, with four blanks or more, is taken for the last (`PaddedLineEndsReply`). `EndsReplyIff` says which lines
  end a reply;
* `get` with an address tells the server a port that consists of the first two bytes of the address (`PortTellsAddress`);
* `get` with an address of its own never sends RETR; without one it does so if and only if the reply holds an address
  (`GetSendsRetrIffPassive`).

Where code and comments disagree the model follows the code. `nbbio.h:77-82` speaks of one line feed ignored after a
carriage return; `nbbio.cc:107-116` leaves `m_lastchar` alone, so a whole run of them is dropped, and that is what
`DropFeeds` says.

## Model

| member | source | states |
|---|---|---|
| EClock.DiffOfWrapped | dkftpbench-0.45/eclock.h:38-43 | subtracting two wrapped clock words gives the wrapped difference of the true times behind them |
| EClock.AfterTellsTrueTime | dkftpbench-0.45/eclock.h:38-58 | for true times less than half the range apart, after and before on the wrapped words agree with the true order, wherever the counter wrapped |
| EClock.AfterFailsAtHalfRange | dkftpbench-0.45/eclock.h:30-43 | from half the range on the later time no longer counts as after: the documented assumption is needed |
| EClock.NarrowClockRightIffSameTurn | dkftpbench-0.45/eclock.h:16-43 | a clock kept in a word at most half as wide as the one times are compared in (int ticks, long difference): of two times less than a turn apart the later comes after the earlier if and only if the clock has not wrapped between them |
| EClock.AfterIsOffsetOrder | dkftpbench-0.45/eclock.h:38-58 | inside a half-range window the comparison is the order by distance from the start of the window |
| EClock.AfterIsStrictTotalOrder | dkftpbench-0.45/eclock.h:38-43 | inside a half-range window: irreflexive, total and transitive |
| EClock.AfterCyclesOutsideWindow | dkftpbench-0.45/eclock.h:38-43 | outside a window there are three words each after the previous one, in a cycle |
| HeapKeys.SiftUpStep | dkftpbench-0.45/Sked.cc:121-141 | swapping the gap with its parent keeps the heap-except-one-gap invariant |
| HeapKeys.SiftDownStep | dkftpbench-0.45/Sked.cc:150-184 | swapping with the earlier child keeps the heap-except-one-gap invariant |
| HeapKeys.SiftDownStops | dkftpbench-0.45/Sked.cc:162-181 | once the earlier child comes after the sifted record, the heap is whole |
| HeapKeys.BubbleStep | dkftpbench-0.45/Sked.cc:200-211 | bubbling a victim to the root, whatever its time, damages the order only around the victim |
| HeapKeys.RootReplaced | dkftpbench-0.45/Sked.cc:212-225 | overwriting the root with the last record leaves a heap except at the root |
| HeapKeys.RootIsLeast | dkftpbench-0.45/Sked.cc:83-111 | the local parent-child condition puts the least key at the root |
| Sked.Sked.TopIsEarliest | dkftpbench-0.45/Sked.h:117 | the record at the root is one that no queued client is due before |
| Sked.Sked.StoreAt | dkftpbench-0.45/Sked.cc:72 | the record and the position stored in its client stay inverse to each other |
| Sked.Sked.Exchange | dkftpbench-0.45/Sked.cc:129-137 | two records change places; queue contents and positions stay exact and the keys are swapped |
| Sked.Sked.SiftUp | dkftpbench-0.45/Sked.cc:121-141 | restores heap order from a leaf up; the map from client to time is unchanged |
| Sked.Sked.SiftDown | dkftpbench-0.45/Sked.cc:150-184 | restores heap order from a gap down; the map from client to time is unchanged |
| Sked.Sked.Remove | dkftpbench-0.45/Sked.cc:191-226 | removing any record, the last one included, leaves a heap of exactly the other records, with every position right |
| Sked.Sked.Grow | dkftpbench-0.45/Sked.cc:234-267 | doubling the array keeps every record in its place |
| Sked.Sked.Push | dkftpbench-0.45/Sked.cc:234-267 | adds exactly one record, with or without growth; heap order and positions hold |
| Sked.Sked.PopRoot | dkftpbench-0.45/Sked.cc:273-302 | takes exactly the top client out and clears its position |
| Sked.Sked.Pop | dkftpbench-0.45/Sked.cc:273-302 | an empty heap is left alone, otherwise the queue loses exactly the client at the top |
| Sked.Sked.constructor | dkftpbench-0.45/Sked.cc:310-321 | starts as an empty queue |
| Sked.Sked.AddClient | dkftpbench-0.45/Sked.cc:328-336 | the queue gains exactly this client at this time |
| Sked.Sked.DelClient | dkftpbench-0.45/Sked.cc:342-357 | deletes a client from anywhere in the heap, or does nothing if it is not queued; its index becomes 0 and all others stay right |
| Sked.Sked.NextTime | dkftpbench-0.45/Sked.h:199 | the time of an earliest queued client, or the default if there is none |
| Sked.Sked.Callback | dkftpbench-0.45/Sked.cc:365-397 | the scheduler calls made by one callback act on the queue as on a map, in order |
| Sked.Sked.RunAll | dkftpbench-0.45/Sked.cc:365-397 | terminates once callbacks look only forward, never takes the EINVAL branch, dispatches only earliest due clients, and leaves no due client queued |
| Sked.Sked.RootDecides | dkftpbench-0.45/Sked.cc:365-381 | if the top is not due, or there is none, nothing queued is due |
| Sked.DueShrinks | dkftpbench-0.45/Sked.cc:365-397 | each dispatch whose callback looks forward lowers the number of due clients |
| SkedSpec.NothingEarlierReturns | dkftpbench-0.45/Sked.cc:365-397 | after a dispatch no earlier time is ever queued again in the run, if callbacks never schedule into the past |
| SkedSpec.DispatchInTimeOrder | dkftpbench-0.45/Sked.cc:365-397 | the dispatch log of a run is in nondecreasing time order |
| SkedSpec.UntouchedStaysUntilDispatched | dkftpbench-0.45/Sked.cc:365-397 | a client that callbacks leave alone is queued at its time exactly until it is dispatched |
| SkedSpec.UntouchedRunsOnceIffDue | dkftpbench-0.45/Sked.cc:365-397 | over a whole run such a client is dispatched if and only if it was due, at most once, at its own time |
| SkedSpec.FirstDispatchIffDue | dkftpbench-0.45/Sked.cc:365-397 | a client that no callback names before its own first dispatch is dispatched in a whole run if and only if it was due, and then first at the time it was queued at; what its own callback and later ones ask for is free |
| SkedSpec.QueuedAsLastAsked | dkftpbench-0.45/Sked.cc:328-397 | after any run a client is queued if and only if the last thing that befell it was to be scheduled, and then at the time asked for |
| SkedSpec.LaterOpsAddNoDue | dkftpbench-0.45/Sked.cc:365-397 | scheduling later than now adds nothing due |
| SkedSpec.ReschedulingForNowNeverEnds | dkftpbench-0.45/Sked.cc:365-397 | a callback that reschedules itself for now is dispatched without end: legal runs of every length exist |
| SigioSpec.StepKeepsWf | dkftpbench-0.45/Poller_sigio.cc:154-349 | after every call the ready list holds exactly the monitored descriptors with a wanted bit ready, each once, and the cursor is on it |
| SigioSpec.WaitStartsFullPass | dkftpbench-0.45/Poller_sigio.cc:359-454 | whatever signals are pulled, and through an overflow, the cursor ends at the head with the whole list to come |
| SigioSpec.RemovalRestartsIffAtEnd | dkftpbench-0.45/Poller_sigio.cc:119-151 | taking a descriptor off the list just takes it off the rest of the pass, if and only if the cursor is not on it as the last of several; then everything comes again |
| SigioSpec.StepOnPass | dkftpbench-0.45/Poller_sigio.cc:83-167 | what any call does to the rest of a pass: nothing, one more at the end, one less, or back to the head |
| SigioSpec.FreshIffNoRepeat | dkftpbench-0.45/Poller_sigio.cc:83-167 | what is still to come stays exactly the listed descriptors not yet returned, if and only if the call neither unlists the last of several under the cursor nor lists a returned one |
| SigioSpec.WhatStaysListedIsReturned | dkftpbench-0.45/Poller_sigio.cc:460-506 | whatever callbacks do to other descriptors, a finished pass has returned each descriptor to come that none took off the list before its turn, with nonzero revents, unless it ended at descriptor 0 |
| SigioSpec.PassReturnsEachListedOnce | dkftpbench-0.45/Poller_sigio.cc:460-506 | when no callback makes a repeating call: no descriptor comes twice, the pass ends before its time if and only if 0 is listed, and none was missed that stayed on the list until its turn |
| SigioSpec.UntouchedRestComesInOrder | dkftpbench-0.45/Poller_sigio.cc:460-506 | callbacks that name no listed descriptor before its turn, as clearing or deleting the one returned: the list comes in order, each with the bits it had, and nothing else if they only clear or delete |
| SigioSpec.StepElsewhere | dkftpbench-0.45/Poller_sigio.cc:83-167 | a call about one descriptor leaves the rest of the pass over the others in place, with their entries |
| SigioSpec.RaisedUntilTakenAway | dkftpbench-0.45/Poller_sigio.cc:302-349 | a raised bit survives a call if and only if the call is not one that takes it from this descriptor |
| SigioSpec.RaisedIsReported | dkftpbench-0.45/Poller_sigio.cc:460-506 | a pass reports raised bits whatever callbacks do to other descriptors, and whatever of this one that leaves the bits until its turn |
| SigioSpec.LevelFromEdge | dkftpbench-0.45/Poller_sigio.cc:359-476 | over any run of calls and passes with any callbacks, bits once raised are reported by every later full pass until one is taken away, or descriptor 0 ends the pass |
| SigioSpec.BitIsAsLastSettled | dkftpbench-0.45/Poller_sigio.cc:169-349 | over any run of calls, signals, reports and passes, a bit is in the mask of a monitored descriptor, or in its readiness, if and only if the last event that settled it put it there |
| SigioSpec.WantedAndReadyIsReported | dkftpbench-0.45/Poller_sigio.cc:284-349 | bits that have become wanted and ready over any run, in whichever order, are reported by the next full pass |
| SigioSpec.EventsAreExact | dkftpbench-0.45/Poller_sigio.cc:460-490 | every event of a pass has exactly the bits wanted and ready when it is returned, some of them, and goes to the client monitored then |
| SigioSpec.WhoListens | dkftpbench-0.45/Poller_sigio.cc:222-239 | only adding a descriptor changes who listens to it |
| SigioSpec.DeletingLastRestartsPass | dkftpbench-0.45/Poller_sigio.cc:119-151 | a run in which a callback deletes the last entry under the cursor and the first entry is returned twice |
| PollerSigio.UnlinkLinks | dkftpbench-0.45/Poller_sigio.cc:119-151 | splicing an entry out leaves one cycle, with prev its inverse, through exactly the other entries |
| PollerSigio.LinkLastLinks | dkftpbench-0.45/Poller_sigio.cc:83-116 | linking an entry before the head leaves one cycle with the entry last |
| PollerSigio.PollerSigio.constructor | dkftpbench-0.45/Poller_sigio.cc:32-53 | starts with nothing monitored and an empty list |
| PollerSigio.PollerSigio.InUse | dkftpbench-0.45/Poller_sigio.cc:289-291 | the range-and-clear test is true exactly of the monitored descriptors |
| PollerSigio.PollerSigio.ReadyListAdd | dkftpbench-0.45/Poller_sigio.cc:83-116 | appends to the ring and moves an idle cursor to the new entry |
| PollerSigio.PollerSigio.ReadyListDel | dkftpbench-0.45/Poller_sigio.cc:119-151 | takes the entry off the ring; head, count and cursor follow, round the ring if need be |
| PollerSigio.PollerSigio.Unthread | dkftpbench-0.45/Poller_sigio.cc:139-148 | the pointer writes of a deletion, also when the neighbours are the same entry |
| PollerSigio.PollerSigio.ReadyListUpdate | dkftpbench-0.45/Poller_sigio.cc:154-167 | on the list if and only if ready |
| PollerSigio.PollerSigio.OnListIffLinked | dkftpbench-0.45/Poller_sigio.h:161-165 | m_next is nonnegative exactly for the entries on the ring |
| PollerSigio.PollerSigio.Add | dkftpbench-0.45/Poller_sigio.cc:169-246 | the map gains the descriptor with the initial readiness, growing the table if needed, and the backup poller has the last word; nothing changes on a kernel error; without one the object stays valid if and only if the descriptor was not monitored already, and the ring whole if and only if it was not listed |
| PollerSigio.PollerSigio.GrowTo | dkftpbench-0.45/Poller_sigio.cc:169-246 | growth preserves every entry and the ring |
| PollerSigio.PollerSigio.Del | dkftpbench-0.45/Poller_sigio.cc:248-285 | exactly this descriptor is forgotten, off the ring as well; the error cases change nothing; the object stays valid if and only if an open descriptor that is deleted was monitored |
| PollerSigio.PollerSigio.SetMask | dkftpbench-0.45/Poller_sigio.cc:287-300 | exactly this mask for a monitored descriptor, with no other entry changed, and its place on the list; ENOENT and no change otherwise |
| PollerSigio.PollerSigio.OrMask | dkftpbench-0.45/Poller_sigio.cc:302-314 | bits added to the mask, ENOENT and no change otherwise |
| PollerSigio.PollerSigio.AndMask | dkftpbench-0.45/Poller_sigio.cc:316-328 | bits kept in the mask, ENOENT and no change otherwise |
| PollerSigio.PollerSigio.ClearReadiness | dkftpbench-0.45/Poller_sigio.cc:336-349 | the readiness bits are cleared and the list follows; a descriptor that is not monitored is ignored |
| PollerSigio.PollerSigio.Signalled | dkftpbench-0.45/Poller_sigio.cc:403-412 | one realtime signal adds its band to the readiness of a monitored descriptor and is ignored otherwise |
| PollerSigio.PollerSigio.Resynced | dkftpbench-0.45/Poller_sigio.cc:425-440 | one event of the backup poller replaces the readiness of a monitored descriptor |
| PollerSigio.PollerSigio.WaitForEvents | dkftpbench-0.45/Poller_sigio.cc:359-454 | takes in every signal up to an overflow and then the backup events, and leaves a full pass to come; EWOULDBLOCK exactly if the list is empty |
| PollerSigio.NoEventIsLost | dkftpbench-0.45/Poller_sigio.cc:359-454 | a monitored descriptor that the backup poller reports after an overflow has exactly the readiness last reported; any other has what it had and all that was signalled before the overflow; it is listed if and only if it wants some of that |
| PollerSigio.PollerSigio.GetNextEvent | dkftpbench-0.45/Poller_sigio.cc:460-476 | returns the entry at the cursor with its wanted ready bits and advances, or EWOULDBLOCK |
| PollerSigio.PollerSigio.WaitAndDispatchEvents | dkftpbench-0.45/Poller_sigio.cc:478-506 | a whole pass with callbacks: ends, and its log is a legal pass of the specification |
| LineSplit.AgreesNext | dkftpbench-0.45/nbbio.cc:103-125 | one byte through the reader is one byte through the reference definition, with the dropped line feeds |
| LineSplit.ReadLoopAgrees | dkftpbench-0.45/nbbio.cc:95-133 | one call reads on from where the last stopped and hands over at most the next line |
| LineSplit.StepConsistent | dkftpbench-0.45/nbbio.cc:95-133 | every arrival and every call keeps lines plus partial line equal to the reference split of what was consumed |
| LineSplit.AnySessionSplitsTheStream | dkftpbench-0.45/nbbio.cc:95-133 | however the bytes arrive, the lines are those of the reference split of the whole stream; the line buffer never fills if and only if every line fits |
| LineSplit.PiecesDoNotMatter | dkftpbench-0.45/nbbio.cc:95-133 | two ways of cutting and polling one stream give the same lines |
| LineSplit.WouldBlockMeansEmpty | dkftpbench-0.45/nbbio.cc:127-132 | EWOULDBLOCK is returned only with nothing left in the buffer |
| Nbbio.FlushGoesOn | dkftpbench-0.45/nbbio.cc:143-162 | a flush that sends the whole first piece is followed by a flush of the rest |
| Nbbio.FlushOutcome | dkftpbench-0.45/nbbio.cc:143-163 | the error and the count of every flush, from the writes alone |
| Nbbio.Nbbio.constructor | dkftpbench-0.45/nbbio.h:94 | starts empty |
| Nbbio.Nbbio.BytesUsed | dkftpbench-0.45/nbbio.h:99 | the masked difference of the indices is the length of the queue |
| Nbbio.Nbbio.BytesFree | dkftpbench-0.45/nbbio.h:104 | used plus free is always 1023 |
| Nbbio.Nbbio.IsEmpty | dkftpbench-0.45/nbbio.h:109 | equal indices exactly when the queue is empty |
| Nbbio.Nbbio.ContigBytesUsed | dkftpbench-0.45/nbbio.h:179-181 | a prefix of the queue, short of all of it only up to the end of the array |
| Nbbio.Nbbio.ContigIsFront | dkftpbench-0.45/nbbio.h:172-181 | the contiguous bytes are the front of the queue, in order |
| Nbbio.Nbbio.ContigBytesFree | dkftpbench-0.45/nbbio.h:190-198 | free bytes that may be filled, short of all of them only up to the end of the array, and zero exactly when full |
| Nbbio.Nbbio.Put | dkftpbench-0.45/nbbio.cc:41-79 | all or nothing, across the wrap, with the exact error conditions |
| Nbbio.Nbbio.WriteFront | dkftpbench-0.45/nbbio.cc:143-162 | one short or full write takes exactly the bytes sent off the front |
| Nbbio.Nbbio.FlushTo | dkftpbench-0.45/nbbio.cc:143-162 | sent plus held is what was held, in order, for every short or failing write; a kernel error if and only if a write that is made fails, with its number |
| Nbbio.Nbbio.FillFrom | dkftpbench-0.45/nbbio.cc:176-211 | exactly the bytes read are appended, as many of each read as there is room for; EPIPE if and only if there is room and the first read gives nothing, a kernel error if and only if a read that is made fails, with its number, and an empty second read is no error |
| Nbbio.Nbbio.Readc | dkftpbench-0.45/nbbio.h:127-131 | takes the first byte of the queue |
| Nbbio.Nbbio.Readline | dkftpbench-0.45/nbbio.cc:95-133 | computes the resumable reader on the queue and the line buffer, including the terminator and the three results |
| PollSpec.PendingShrinksIffNotSpoiled | dkftpbench-0.45/Poller_poll.cc:68-158 | a call adds nothing to what the scan has still to return, if and only if it neither deletes an unscanned entry while the last one is scanned and flagged, nor adds below the cursor in a slot with bits left in it |
| PollSpec.StepOnPending | dkftpbench-0.45/Poller_poll.cc:229-290 | one event and careful callbacks take from what is to come exactly the event and what they delete |
| PollSpec.FlaggedOnceOrDeleted | dkftpbench-0.45/Poller_poll.cc:229-290 | a finished pass without such a call has returned every flagged entry exactly once unless it was deleted first, and nothing else |
| PollSpec.SparingPassIsTopDown | dkftpbench-0.45/Poller_poll.cc:229-290 | when callbacks delete only what was scanned, the log is the flagged entries from the top down and m_rfds ends at 0 |
| PollSpec.FlaggedDownIsExact | dkftpbench-0.45/Poller_poll.cc:229-263 | those are each flagged entry once and nothing else |
| PollSpec.DeletingUnscannedRepeatsAndLoses | dkftpbench-0.45/Poller_poll.cc:123-158 | a run that returns one entry twice, uses up m_rfds, and never returns another |
| PollSpec.ReopeningBelowCursorGetsStaleBits | dkftpbench-0.45/Poller_poll.cc:107-119 | a run in which a descriptor closed and opened again is returned to its new client with the old bits |
| PollerPoll.FilledKeepsIndex | dkftpbench-0.45/Poller_poll.cc:107-119 | filling the next slot keeps table and arrays inverse and adds one key to the map |
| PollerPoll.GrownKeepsIndex | dkftpbench-0.45/Poller_poll.cc:70-105 | growth of the table or of the arrays preserves every entry |
| PollerPoll.ClosedKeepsIndex | dkftpbench-0.45/Poller_poll.cc:138-151 | moving the last entry into the hole keeps table and arrays inverse and removes exactly one key |
| PollerPoll.MaskKeepsIndex | dkftpbench-0.45/Poller_poll.cc:160-198 | a new event mask changes one value of the map and no position |
| PollerPoll.FindInItems | dkftpbench-0.45/Poller_poll.cc:123-137 | the table finds the position of a descriptor in the gap-free array |
| PollerPoll.PollerPoll.Add | dkftpbench-0.45/Poller_poll.cc:68-121 | adds one key; the entry goes to the end and starts with the bits left in its slot, also after growth; the table and the arrays stay inverse if and only if the descriptor was not monitored already |
| PollerPoll.PollerPoll.Del | dkftpbench-0.45/Poller_poll.cc:123-158 | removes one key by moving the last entry into its place, with the exact error cases |
| PollerPoll.PollerPoll.CloseHole | dkftpbench-0.45/Poller_poll.cc:138-151 | the array writes of a deletion, also of the last entry |
| PollerPoll.PollerPoll.SetMask | dkftpbench-0.45/Poller_poll.cc:160-174 | replaces the mask, or ENOENT |
| PollerPoll.PollerPoll.OrMask | dkftpbench-0.45/Poller_poll.cc:176-186 | adds bits to the mask |
| PollerPoll.PollerPoll.AndMask | dkftpbench-0.45/Poller_poll.cc:188-198 | keeps bits of the mask |
| PollerPoll.PollerPoll.WaitForEvents | dkftpbench-0.45/Poller_poll.cc:207-223 | m_rfds equals the number of flagged entries and the scan starts above all of them |
| PollerPoll.PollerPoll.GetNextEvent | dkftpbench-0.45/Poller_poll.cc:229-263 | finds the next flagged entry below the cursor; reads in front of the array if and only if called again after finding nothing with events still expected |
| PollerPoll.PollerPoll.WaitAndDispatchEvents | dkftpbench-0.45/Poller_poll.cc:264-290 | a whole pass, whatever callbacks do: a legal and finished run of the specification, which never reads in front of the array |
| PollerPoll.CarefulPass | dkftpbench-0.45/Poller_poll.cc:207-290 | from what poll flagged: every flagged entry exactly once unless deleted first, nothing twice, nothing after its deletion, nothing newly added |
| PollerMap.MaskIsAsLastSettled | dkftpbench-0.45/Poller_poll.cc:68-197 | over any run of calls, a bit is in the mask of a monitored descriptor if and only if the last call that settled it put it there |
| SelectSpec.AscendingAndNeverDeleted | dkftpbench-0.45/Poller_select.cc:94-125 | events ascend, so none comes twice, and a descriptor deleted in the pass never comes, not even if added again |
| SelectSpec.EveryFlagIsReturnedOrDeleted | dkftpbench-0.45/Poller_select.cc:249-290 | a flag not yet returned nor deleted stays ahead of the scan |
| SelectSpec.CompletePass | dkftpbench-0.45/Poller_select.cc:249-318 | a complete pass returns every flagged descriptor unless a callback deleted it first |
| SelectSpec.EventSaysWhatSelectSaid | dkftpbench-0.45/Poller_select.cc:249-290 | an event has exactly the bits select flagged for its descriptor, and goes to the client monitored by then |
| SelectSpec.SelectMaskIsAsLastSettled | dkftpbench-0.45/Poller_select.cc:70-200 | over any run of calls, a bit is in the mask of a monitored descriptor if and only if select knows it and the last call that settled it put it there |
| PollerSelect.PollerSelect.Add | dkftpbench-0.45/Poller_select.cc:70-92 | adds one key, with select's two bits; m_max_fd is exactly the largest monitored descriptor |
| PollerSelect.PollerSelect.Del | dkftpbench-0.45/Poller_select.cc:94-125 | removes one key and its pending flags; m_rbits stays as it is, so at least the bits left, and m_max_fd is exact again |
| PollerSelect.PollerSelect.SetMask | dkftpbench-0.45/Poller_select.cc:127-152 | replaces the two bits |
| PollerSelect.PollerSelect.OrMask | dkftpbench-0.45/Poller_select.cc:154-176 | adds the bits |
| PollerSelect.PollerSelect.AndMask | dkftpbench-0.45/Poller_select.cc:178-200 | clears the bits that are not kept |
| PollerSelect.PollerSelect.WaitForEvents | dkftpbench-0.45/Poller_select.cc:209-243 | starts a pass over what select flagged among the monitored bits |
| PollerSelect.PollerSelect.GetNextEvent | dkftpbench-0.45/Poller_select.cc:249-290 | returns the least flagged descriptor above the scan with a client, or EWOULDBLOCK exactly when none is left |
| PollerSelect.PollerSelect.WaitAndDispatchEvents | dkftpbench-0.45/Poller_select.cc:292-318 | a whole pass under arbitrary adds, deletes and mask calls is a legal and complete pass |
| Throttle.ThrottleIsExact | dkftpbench-0.45/ftp_client_pipe.cc:377-392 | in both branches: 0 <= carry < rate/hertz + 1, bytes not carried are paid for by the wait, and the wait is no longer than they need |
| Throttle.ReckoningStaysOnSchedule | dkftpbench-0.45/ftp_client_pipe.cc:321-392 | a reckoning that comes no earlier than m_wakeup keeps the whole transfer within its rate |
| Throttle.BytesWithinRate | dkftpbench-0.45/ftp_client_pipe.cc:377-392 | what being on schedule bounds: total bytes against elapsed ticks |
| PipeSpec.RunStaysOnTime | dkftpbench-0.45/ftp_client_pipe.cc:284-394 | over every run, with hangups and wakings at any time, the transfer is ahead of its rate by no more than the ticks by which it read early |
| PipeSpec.BytesBound | dkftpbench-0.45/ftp_client_pipe.cc:321-392 | from get on, over every run, total bytes < bps*(m_wakeup - start + ticks read early)/hertz + bps/hertz + 1 |
| PipeSpec.PunctualIsNeverEarly | dkftpbench-0.45/ftp_client_pipe.cc:321-336 | no tick is read early in a run without POLLHUP whose wakings come no earlier than m_wakeup |
| PipeSpec.RateBound | dkftpbench-0.45/ftp_client_pipe.cc:321-392 | from get on, total bytes < bps*(m_wakeup - start)/hertz + bps/hertz + 1 over every such run |
| PipeSpec.HangupExceedsRate | dkftpbench-0.45/ftp_client_pipe.cc:321-336 | a run of two reads, the second with POLLHUP, exceeds that bound |
| PipeSpec.AsleepKeepsAll | dkftpbench-0.45/ftp_client_pipe.cc:298-336 | events that find the pipe asleep are all remembered, but for those that find a data connection in the making refused, and change nothing else; one that finds it made ends the making |
| PipeSpec.WakingReplaysUnion | dkftpbench-0.45/ftp_client_pipe.cc:682-724 | waking acts, at the later reading of the clock, on exactly the union of the readiness seen since the pipe fell asleep; it aborts if and only if there is some and the data connection was closed meanwhile; a connection in the making is checked at the replay |
| PipeSpec.ReadyAbortsIffOpenedIdle | dkftpbench-0.45/ftp_client_pipe.cc:294-296 | after any run without a new get, readiness of the data descriptor fails the assertion on the state if and only if the data connection was opened while the pipe was idle, and not closed since |
| PipeSpec.VerdictOnEvent | dkftpbench-0.45/ftp_client_pipe.cc:284-374 | the verdict on an event from the event alone: finished if and only if it is handled and a read finds the end or there is only a hangup, broken if and only if the connection is refused or the read fails; the poller is told IN is not ready if and only if the read would block |
| PipeSpec.StateAfterEvent | dkftpbench-0.45/ftp_client_pipe.cc:298-392 | what an event leaves: idle and closed if and only if it ends the transfer, asleep with the event kept if it came too early, otherwise going on with its bytes counted, the carry and the wait reckoned from now |
| PipeSpec.OverIffSomeEventEnds | dkftpbench-0.45/ftp_client_pipe.cc:338-374 | over every run a transfer is over if and only if some event ended it, at once or replayed on waking |
| Pipe.Pipe.constructor | dkftpbench-0.45/ftp_client_pipe.cc:78-103 | starts idle and unconnected |
| Pipe.Pipe.Connect | dkftpbench-0.45/ftp_client_pipe.cc:145-228 | schedules the connection timeout |
| Pipe.Pipe.LineArrived | dkftpbench-0.45/ftp_client_pipe.cc:460-464 | a reply line cancels the timeout of an idle pipe, and only then |
| Pipe.Pipe.Get | dkftpbench-0.45/ftp_client_pipe.cc:828-846 | from whatever state the last command left: aborts if and only if the pipe is still scheduled or has no control connection; otherwise a transfer starts with nothing carried, m_wakeup now, and a timeout scheduled |
| Pipe.Pipe.GetAfterFailedGet | dkftpbench-0.45/ftp_client_pipe.cc:460-464 | the run: a get whose command fails leaves its timeout scheduled, since the reply cancels it only when the pipe is idle, and the next get aborts |
| Pipe.Pipe.CloseData | dkftpbench-0.45/ftp_client_pipe.cc:656-664 | a failed command closes the data connection without touching the sleep |
| Pipe.Pipe.OpenData | dkftpbench-0.45/ftp_client_pipe.cc:298-319 | a data connection that may still be in the making |
| Pipe.Pipe.Reckon | dkftpbench-0.45/ftp_client_pipe.cc:377-392 | computes the wait and the carry of the throttle in both branches, on the wrapped clock |
| Pipe.Pipe.NotifyData | dkftpbench-0.45/ftp_client_pipe.cc:284-394 | refines the machine over true times, through the check of a connection in the making and the KICKSTART bit; finished, idle, closed and unscheduled if and only if the event ends the transfer; the assertion on the state fails if and only if the pipe is idle; SLEEPING implies queued in the scheduler at m_wakeup, and other clients stay as they were |
| Pipe.Pipe.GetBeforeDone | dkftpbench-0.45/ftp_client_pipe.cc:294-296 | the run: a get while the last data connection is still open, that one ends, the next is opened, and its first event fails the assertion on the state |
| Pipe.Pipe.Wake | dkftpbench-0.45/ftp_client_pipe.cc:682-724 | a due sleeping pipe gets again and replays what it remembered; the assertion on the descriptor fails if and only if there is something to replay and the data connection is closed |
| Pipe.Pipe.RunTop | dkftpbench-0.45/Sked.cc:365-397 | a turn of the real scheduler with the sleeping pipe on top wakes it if and only if its time has come |
| Pipe.Pipe.SleeperRunsIffDue | dkftpbench-0.45/Sked.cc:365-397 | a sleeping pipe that no callback names before its own dispatch is dispatched by a run of the scheduler if and only if m_wakeup is due, and at that first dispatch what waking it needs holds |
| Pipe.Pipe.Shutdown | dkftpbench-0.45/ftp_client_pipe.cc:235-268 | leaves the scheduler and closes both connections, once |
| Pipe.Pipe.TimedOut | dkftpbench-0.45/ftp_client_pipe.cc:682-724 | a timeout that fires shuts the pipe down |
| HostPort.ScanPrinted | dkftpbench-0.45/ftp_client_proto.cc:282-290 | a printed number followed by a non-digit is read back as that number, and reading stops there |
| HostPort.ScanPrintedList | dkftpbench-0.45/ftp_client_proto.cc:282-290 | a printed comma-separated list is read back |
| HostPort.ParsePrinted | dkftpbench-0.45/ftp_client_proto.cc:260-300 | six printed numbers are found and read back after any comma-free text that does not end in a digit, with or without parentheses |
| HostPort.AtoiReads | dkftpbench-0.45/ftp_client_proto.cc:151 | atoi is the value of the numeral at the start of the line, whatever follows |
| HostPort.StatusIffCode | dkftpbench-0.45/ftp_client_proto.cc:151 | a line has a three-digit status if and only if it starts with those digits, or with three blanks before a text that has it |
| FtpProto.React | dkftpbench-0.45/ftp_client_proto.cc:165-320 | one entry is on the stack exactly in PORT and PASV, after every reply line; the multi-line flag is not touched |
| FtpProto.Give | dkftpbench-0.45/ftp_client_proto.cc:146-320 | the stack invariant through continuation lines too |
| FtpProto.Step | dkftpbench-0.45/ftp_client_proto.cc:146-565 | the stack invariant through every user call and every server line |
| FtpProto.ContinuationsCanBeErased | dkftpbench-0.45/ftp_client_proto.cc:146-320 | erasing all but the first line of each multi-line reply from any interleaving gives the same return codes, states, statuses, stacks and commands |
| FtpProto.StepIgnoresMultiline | dkftpbench-0.45/ftp_client_proto.cc:146-164 | outside a reply the machine never looks at the multi-line flag; inside, a line changes nothing but that flag |
| FtpProto.EndsReplyIff | dkftpbench-0.45/ftp_client_proto.cc:155-164 | a line ends a reply of several lines if and only if it starts with the code and a space, or with four blanks, the last a space, before what atoi reads as the code |
| FtpProto.PaddedLineEndsReply | dkftpbench-0.45/ftp_client_proto.cc:155-164 | a line in the middle of a reply that begins with its code, padded as section 4.2 of RFC 959 asks, ends it too soon |
| FtpProto.PassiveReplyRoundTrip | dkftpbench-0.45/ftp_client_proto.cc:260-300 | any six bytes in host-port form come out as the same address and port, and the machine is in RETR with that command queued |
| FtpProto.AddressTakesLowBytes | dkftpbench-0.45/ftp_client_proto.cc:271-283 | any six numbers make an address and a port of their low bytes, in order |
| FtpProto.PortTellsAddress | dkftpbench-0.45/ftp_client_proto.cc:544-559 | PORT tells the server the address, and as the port the first two bytes of the address again |
| HostPort.ScannedNumeral | dkftpbench-0.45/ftp_client_proto.cc:282-290 | whatever %d reads is white space, a sign or none, and digits, and ends where the digits end |
| HostPort.ParseSixIffHeld | dkftpbench-0.45/ftp_client_proto.cc:260-300 | the parser finds six numbers exactly in the lines that hold six numerals with commas between them from the digits before the first comma on, with any tail |
| FtpProto.PassiveReplyReadIffHeld | dkftpbench-0.45/ftp_client_proto.cc:260-300 | PASV leads to RETR if and only if the reply is positive and the line holds six numbers, which then are the address |
| FtpProto.GetSendsRetrIffPassive | dkftpbench-0.45/ftp_client_proto.cc:248-300 | from get to the last line of the reply, with user calls in between: the RETR line is queued if and only if no address was given, the reply is positive and it holds six numbers; with an address a positive reply leads to RETR and nothing is queued |
| FtpProto.LoginCommutesWithGreeting | dkftpbench-0.45/ftp_client_proto.cc:376-402 | logging in before the greeting, of one line or several, and after it lead to the same object, in USER with the USER line queued; a greeting that refuses ends the session either way |
| FtpProto.GreetingAdmits | dkftpbench-0.45/ftp_client_proto.cc:176-192 | from login through any user calls to the last line of the greeting: a positive one leads on to USER, any other to UNINIT with EACCES |
| FtpProto.PasswordSentIffAsked | dkftpbench-0.45/ftp_client_proto.cc:194-210 | a reply to USER from 300 to 399, and no other, queues PASS with the password; status 0 until that is answered, otherwise the status of the reply |
| FtpProto.LoginDialogue | dkftpbench-0.45/ftp_client_proto.cc:176-219 | logging in with replies of one line or several and any user calls in between: USER goes out, exactly the first 31 characters of the password when asked for; ends in IDLE if and only if USER was answered 2xx, or 3xx and then PASS 2xx, otherwise in INIT with the refusing status |
| FtpProto.CommandGetsItsReply | dkftpbench-0.45/ftp_client_proto.cc:328-337 | from call to last line of the reply: CWD, CDUP, TYPE or SIZE with its argument goes out, status 0 through any further user calls, then the status of the first line through all continuation lines, and no other command is sent |
| FtpProto.NothingUntilReply | dkftpbench-0.45/ftp_client_proto.cc:422-485 | no run of user calls changes the object while a reply or the greeting is awaited, but for the output being sent |
| FtpProto.CallRefusedIff | dkftpbench-0.45/ftp_client_proto.cc:376-565 | the exact cases in which a user call is refused, with which error, and that it then changes nothing |
| FtpProto.UnaskedLineRefused | dkftpbench-0.45/ftp_client_proto.cc:166-174 | a line in a state that awaits none is refused with EINVAL and changes the saved status all the same |
| FtpProto.TextIsSaved | dkftpbench-0.45/ftp_client_proto.cc:166-169 | the text kept of a reply is its first line, up to 512 characters of it |
| FtpProto.PreliminariesWait | dkftpbench-0.45/ftp_client_proto.cc:302-311 | any number of 1xx replies leave a transfer in progress |
| FtpProto.TransferDialogue | dkftpbench-0.45/ftp_client_proto.cc:260-320 | a whole passive transfer: PASV, then RETR, status 0 all along, and at the end the final reply's status |
| FtpProto.FtpProto.CallState | dkftpbench-0.45/ftp_client_proto.cc:86-97 | pushes the state to return to |
| FtpProto.FtpProto.PopState | dkftpbench-0.45/ftp_client_proto.cc:103-114 | pops it and leaves the rest |
| FtpProto.FtpProto.ReturnState | dkftpbench-0.45/ftp_client_proto.cc:119-124 | goes to the state popped |
| FtpProto.FtpProto.FindAddress | dkftpbench-0.45/ftp_client_proto.cc:262-290 | the scan with its step back over digits finds the same numbers as the parser |
| FtpProto.FtpProto.GiveInput | dkftpbench-0.45/ftp_client_proto.cc:146-320 | the object refines Give, with the stack array never under- or overrun |
| FtpProto.FtpProto.Ask | dkftpbench-0.45/ftp_client_proto.cc:422-485 | cd, type and size: one command only when idle with nothing to send, the exact error otherwise |
| FtpProto.FtpProto.DoLogin | dkftpbench-0.45/ftp_client_proto.cc:376-402 | login before or after the greeting, and its error cases |
| FtpProto.FtpProto.DoGet | dkftpbench-0.45/ftp_client_proto.cc:526-565 | PASV or PORT queued, the file name kept, RETR on the stack, and the error cases |
| FtpProto.FtpProto.IsPortReady | dkftpbench-0.45/ftp_client_proto.h:164 | an address is handed out once |
| Population.RecountStaysTallied | dkftpbench-0.45/Platoon.cc:4-30 | moving one user from stage to stage keeps every count equal to the users in that stage |
| Population.SumCountsUsers | dkftpbench-0.45/Platoon.cc:110-116 | adding up the counts of a range counts the live users in it |
| Population.VacateStaysTallied | dkftpbench-0.45/Platoon.cc:154-167 | emptying the slot of a stopped user keeps the live counts right |
| Population.StagesOnlyAdvance | dkftpbench-0.45/robouser.cc:210-356 | a user never falls back, never rests in a stage that waits for nothing, and stays stopped |
| Population.StopsIffSomethingFails | dkftpbench-0.45/robouser.cc:210-356 | a live user stops if and only if a call it made, an answer it got, or its rate failed |
| Population.LifeOfAUser | dkftpbench-0.45/robouser.cc:130-356 | over any run of commands done and reads made: stopped if and only if some command failed, or some slow read brought what was read since the last get above ten reads' worth, and by none before; otherwise connecting after one command, typed after two, and fetching from the third on |
| Platoon.Platoon.SumInState | dkftpbench-0.45/Platoon.cc:110-116 | the sum over a range of stages, which may be empty |
| Platoon.Platoon.CountStateChange | dkftpbench-0.45/Platoon.cc:4-30 | takes one from the old stage, unless it is the first, and adds one to the new |
| Platoon.Platoon.GotoState | dkftpbench-0.45/robouser.cc:50-54 | the user's slot and the counts move together |
| Platoon.Platoon.Stop | dkftpbench-0.45/robouser.cc:102-111 | the user is stopped, counted once, and waits to be reaped; it waits twice if and only if it was stopped already |
| Platoon.Platoon.FtpCmdDone | dkftpbench-0.45/robouser.cc:210-356 | the loop over the stages ends in the stage the results lead to, with every count right, that of the stopped one higher if and only if the user stops; an error puts the user on the dead list, whatever its stage, so the list stays free of duplicates unless the user was stopped already |
| Platoon.Platoon.HandleDataIo | dkftpbench-0.45/robouser.cc:130-204 | a slow read that brings the bytes fetched above ten reads stops the user, whatever its stage, and gives a duplicate on the dead list if and only if it was stopped already; any other read of some bytes reaps, and deletes the user that reads if and only if it was stopped; the count of stopped users grows if and only if this one stops |
| Platoon.Platoon.HangupThenRead | dkftpbench-0.45/robouser.cc:174-219 | the run: the control connection fails in the middle of a transfer and then data is read; the user is deleted twice if the read is too slow, and otherwise deleted while it reads |
| Platoon.Platoon.StartUser | dkftpbench-0.45/Platoon.cc:123-149 | starts a user in a free slot if and only if there is one |
| Platoon.Platoon.Launch | dkftpbench-0.45/robouser.cc:72-97 | the new user is counted in CONNECT in its own slot |
| Platoon.Platoon.Reap | dkftpbench-0.45/Platoon.cc:154-167 | exactly the stopped users leave their slots, and every other stays in its own; a user is deleted twice if and only if the dead list held a duplicate |
| Platoon.Platoon.GetStatus | dkftpbench-0.45/Platoon.cc:177-185 | the three numbers count users; exactly the stopped ones leave their slots, and no live one does |
| Platoon.Platoon.SkedCallback | dkftpbench-0.45/Platoon.cc:192-208 | the ramp-up ends, never lifts alive above its target or connecting above its own, and starts nobody while the count of stopped users is positive |
| Platoon.Platoon.Handle | dkftpbench-0.45/robouser_test.cc:70-113 | one event in the main loop, of any user, is a step of the accounts |
| Platoon.Platoon.HandleAll | dkftpbench-0.45/robouser_test.cc:70-113 | any run of events, of any users in any order, is a legal run of the accounts |
| PlatoonSpec.NextBalances | dkftpbench-0.45/Platoon.cc:4-30 | after any event those alive and those stopped are those before and those it started; only a ramp-up with none stopped starts any |
| PlatoonSpec.CountedIffSeen | dkftpbench-0.45/Platoon.cc:151-208 | over any run the count of stopped users is positive if and only if a stopped user has been in a slot, reaped since or not |
| PlatoonSpec.NobodyStartsAfterAStop | dkftpbench-0.45/Platoon.cc:192-208 | once a user has stopped, no vacant slot is filled again and no more are alive in the whole rest of the run, through reapings, reads, new targets and ramp-ups |
| PlatoonSpec.EveryUserIsAccountedFor | dkftpbench-0.45/Platoon.cc:177-185 | over any run nalive + ndead grows by exactly the users started: none is lost or counted twice |
| PlatoonSpec.NeverAboveEveryTarget | dkftpbench-0.45/Platoon.cc:192-208 | over any run, with the targets set anew on the way, no more users are alive than at first or than the highest target |
| PlatoonSpec.UserLivesItsLife | dkftpbench-0.45/robouser.cc:130-356 | in the run of all, a slot holds the stage and the bytes its own events lead to, whatever happens to the others, until one of its own stops it; then it is stopped, or vacant for good |
| PlatoonSpec.AliveUntilItsOwnStop | dkftpbench-0.45/robouser.cc:130-356 | in the run of all, a user is alive if and only if none of its own events has stopped it |

## Left out

- Sockets, `fcntl`, `poll`, `select`, `sigtimedwait`, `gethostbyname` and `gettimeofday`: their results are parameters.
- Poller_devpoll, Poller_kqueue, Poller_sigfd: they rest on kernel rules the repository does not show.
- The CORBA programs, the drivers, option parsing and debug printing: no logic of their own.
- The `Poller_URGENT` option of Poller_select, which nothing defines.
- Growable tables (Sked's array apart) are fields of type `seq` that are reassigned, so aliasing inside `realloc` is not captured.
- Running out of memory, and what happens when something is freed twice.
- The buffer limits of `sprintf` and `sscanf` on overlong lines: the caller of `FtpProto.FtpProto.Print` keeps lines within the buffer.
- Integer overflow of `atoi`, of `%d`, and of `nxfer * hertz` (which needs a read of more than 214748 bytes).
- `FtpProto.FtpProto.GiveInput`: does not model reading `ibuf[3]` beyond the terminator of a line shorter than three characters.
- `HostPort.ParseSix`: stops the step back over digits at the start of the line, where the program would read the byte before it.
- `quit`, `ls` and the PUTTING state: never entered or not finished in the program.
- `Sked.Sked.RunAll`: is stated for times within one half of the clock's range and for callbacks that from some call on look only forward; without either the run can be wrong or endless (`EClock.AfterCyclesOutsideWindow`, `SkedSpec.ReschedulingForNowNeverEnds`).
- `Sked.Sked.Callback`: does not model an addition of a client that is already queued, which `addClient` asserts against.
- `PollerSigio.PollerSigio.WaitForEvents`: takes the backup poller's events as given.
- `PollerPoll.PollerPoll.constructor`: starts with every table entry at -1, which `init` in Poller_poll.cc:37 does not set.
- `PollerPoll.PollerPoll.OrMask`: does not model a descriptor that is not monitored, for which the program indexes its array with -1.
- `PollerPoll.PollerPoll.AndMask`: the same.
- The rest of the control descriptor's handler, and the poller masks a pipe sets for itself.
- `Platoon.Platoon.FtpCmdDone`: takes the floating-point bandwidth check as a given result, and the calls on the pipe as returning without re-entry.
- `Platoon.Platoon.HandleDataIo`: takes the comparison of rates as a given result, and `read` and its error number as its first argument.
- `Platoon`'s own wake-up scheduling and `reset`: they add no state that the counts depend on.
- `Platoon.Platoon.StartUser`: has no error from `start`, which always returns 0; the methods of a user live on the platoon, which owns the counts they share.
- `FtpProto.PortCommand`: prints what a machine with the low byte of a word first would print.
- `Pipe.Pipe.SleeperRunsIffDue`: takes the run of the scheduler as a log of what other callbacks ask of it, as `Sked.Sked.RunAll` produces it.
