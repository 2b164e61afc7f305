# A verified model of a Raspberry Pi teaching operating system

The repository builds a bare-metal operating system lab by lab. This project models its
logic in Dafny and proves what that logic keeps and promises over every input and every run:
the timer queue, the XMODEM receiver, the priority scheduler in its linked-list and its
slot-table form, `memcpy`, the scrolling text console, number printing and reading, the USB
data toggle and the random number generator. The labs repeat each other's files; the model
follows Lab14, except for the console (Lab12) and the older scheduler (Lab10).

`dafny verify dfyconfig.toml` checks everything.

## How it is built

Code that works in place is modelled in place. The timer pool, the task pool, the framebuffer
and the receive buffers are arrays, the structures that own them are classes, and each
operation is proved to act on them as a function on plain values says. The theorems are about
those functions, so a method's `ensures` connects the code to them.

| files | subject |
|---|---|
| `DoubleLink`, `PriorityList`, `Pool` | the intrusive list of `system.h`, kept in key order over a fixed pool |
| `TimerModel`, `TimerTheorems`, `TimerDrain`, `TimerQueue` | `timers.c` |
| `XmodemFrame`, `XmodemModel`, `XmodemTheorems`, `XmodemLink`, `XmodemReceiver` | `xmodem.c` |
| `TaskModel`, `TaskListing`, `TaskPool`, `TaskList`, `SlotTable` | `os.c` of Lab14 and of Lab10, and their agreement |
| `Memory` | `memcpy` and `memset` |
| `ScreenModel`, `ConsoleText`, `ScreenImage`, `ScreenDevice` | `screen.c` |
| `Numerals`, `Printf` | `printf.c`, `atoi`, `putbyte`, `putu32` |
| `Endpoint`, `Random` | `endpoint.c`, `rand.c` |
| `Arithmetic` | products and quotients by repetition, for rows and digits |

What cannot be seen from the code is a parameter. A timer call is given the time the clock
shows; a timer callback is any list of timer calls plus whether it finishes; a task's poll
function is an oracle over everything polled so far; the receiver's polls see any sequence of
bytes and timer expiries; the font is any function. A statement for every parameter is a
statement for every clock, callback, task, line and font.

## What the code does not do

Some natural properties are false of the code. For each the model keeps the code as it is,
and a member states exactly when the property holds.

- Ending the task at the head of the list leaves `TasksStart` on a free slot. The list stays
  well formed if and only if the ended task is not the head (`TaskList.Scheduler.TaskEnd`). The
  next `TaskNew` takes that very slot if and only if all lower slots are in use
  (`TaskPool.EndedHeadIsReusedIff`); it then links the slot to itself and no other task is
  reached again (`TaskPool.ReusedHeadTiesKnot`). Otherwise the new task is never reached if and
  only if its place is right behind the ended head (`TaskPool.NewTaskIsLostIff`).
- A finished task keeps its slot, against the comment that it is freed. A slot is given back if
  and only if `TaskEnd` is called while its task still has its poll function
  (`TaskListing.SlotIsFreedIff`), so once a task has finished nothing frees its slot
  (`TaskListing.FinishedTasksKeepSlots`).
- A task without data that finishes stays listed in a slot that counts as free. A tick keeps all
  listed tasks in use if and only if no task without data reports FINISHED in it
  (`TaskListing.PassKeepsInvariantIff`, with an input in `TaskPool.DatalessTaskLosesSlot`), and
  `TaskNew` if and only if it is given a poll function or data
  (`TaskListing.NewKeepsInvariantIff`). A `TaskNew` that then finds a listed slot ties the list
  into a loop without end (`TaskPool.TakenSlotTiesLoop`).
- A timer scheduled without a callback is linked in a slot that counts as free. The list stays
  well formed if and only if there is a callback (`TimerQueue.Timers.TimerSchedule`).
- A timer callback that cancels its own timer, schedules another and reports that it finished
  loses the new one if and only if all slots below its own are pending
  (`TimerTheorems.RescheduleLosesTimerIff`); for any other callback `TimerTheorems.FinishRemoves`
  says what is lost.
- A due timer that does not finish holds up all others. Of timers due together the j-th fires
  if and only if a poll comes after at least j that finished (`TimerDrain.DueTimerFiresIff`), so
  one that never finishes is the only one to fire (`TimerDrain.UnfinishedHeadStarvesOthers`).
- A single damaged byte makes the receiver refuse a frame if and only if it does not turn the
  header into EOT; that one ends the transfer as a success
  (`XmodemTheorems.OneByteErrorOnTheLine`).
- A resend of a block numbered 255 mod 256 is refused, so the loss of its acknowledgement stops
  a transfer for good (`XmodemLink.LostWrapStopsTransfer`). Given enough clean transmissions a
  file is delivered if and only if that never happens (`XmodemLink.LinkDeliversIff`).
- An accepted frame sets the transfer back if and only if its number is more than one behind the
  expected one (`XmodemTheorems.BlockGoesBackIff`). One numbered 0 before the first wraparound is
  stored below the buffer (`XmodemTheorems.SlotIsInsideIff`) and restarts the transfer at block 1
  (`XmodemTheorems.ZeroFrameRestarts`).
- The received length counts 132 bytes per block
  (`XmodemTheorems.ReportedLengthIsExactIff`).
- `memcpy` moves overlapping memory correctly if and only if the destination does not start
  inside the source (`Memory.CopyMovesIff`).
- Left-adjusted zero padding changes the number printed (`Printf.ReadsBackIff`).
- The check in `scroll` counts a row's bytes four times (`ScreenModel.GuardInPixels`), so on a
  console as wide as the frame it stops in the last three rows (`ScreenModel.GuardTripsIff`), and
  a full-screen console scrolls incompletely if and only if the height of the frame is 1 or 2
  above a multiple of 20 and the console has more than one line
  (`ScreenModel.FullScreenStopsIff`).
- `screen_init` trims the console to the frame, but `screen_device_init` sets its size again and
  does not trim it. What was trimmed stays if and only if offset and size together are within the
  frame (`ScreenDevice.TrimIsKeptIff`); the game of Lab12 is a configuration where they are not
  (`ScreenDevice.GameConsoleIsNotTrimmed`).
- In Lab10 a comment says that a slot with data but no poll function is skipped when a task is
  created; the code reuses it, and so does the model (`SlotTable.Bumped`).

## Model

| member | source | states |
|---|---|---|
| `DoubleLink.ListInsertAfter` | Lab14 Rootport/include/system.h:329-338 | The links after the call are the old ones with the item's, the current node's and the next node's fields rewritten, in program order and also when they coincide. |
| `DoubleLink.ListInsertBefore` | Lab14 Rootport/include/system.h:341-350 | The same on the other side. |
| `DoubleLink.ListRemove` | Lab14 Rootport/include/system.h:353-366 | The neighbours are joined; the node comes by value, so its own links stay as they were. |
| `DoubleLink.InsertBeforeKeepsChain` | Lab14 Rootport/include/system.h:341-350 | On a well-formed chain the item ends up exactly before the given node, both directions consistent, nothing else touched. |
| `DoubleLink.InsertAfterKeepsChain` | Lab14 Rootport/include/system.h:329-338 | On a well-formed chain the item ends up exactly after the given node, both directions consistent, nothing else touched. |
| `DoubleLink.RemoveKeepsChain` | Lab14 Rootport/include/system.h:353-366 | Taking any node out of a chain leaves the chain without it, and slots outside the chain alone. |
| `DoubleLink.ChainIsWalk` | Lab14 Rootport/include/system.h:154-158 | A chain is what following `next` finds, step by step, ending in NULL after exactly its length: it has no cycle. |
| `DoubleLink.ChainIsUnique` | Lab14 Rootport/include/system.h:154-158 | Head pointer and links determine the chain, so the sequence a list is said to hold is not a choice. |
| `PriorityList.NewKeepsOrder` | Lab14 Rootport/system/timers.c:145-164 | Insertion at the first strictly greater key keeps the list strictly ordered by key and then by age, with distinct slots. |
| `PriorityList.DeleteKeepsOrder` | Lab14 Rootport/system/timers.c:81-89 | Removal of any element keeps that order. |
| `PriorityList.FreeSlotExists` | Lab14 Rootport/system/timers.c:118-127 | The search for a free slot fails exactly when as many slots are listed as the pool has. |
| `PriorityList.ThreadedIsChain` | Lab14 Rootport/system/timers.c:138-164 | Whichever way the search loop ends, the links form the chain of the list with the new slot at its position, and the head pointer follows. |
| `TimerTheorems.RunKeepsInvariant` | Lab14 Rootport/system/timers.c:62-232 | After any run of schedule, cancel, service-cancel and poll, whatever callbacks do, the pending timers have distinct slots, callbacks, and strict order by expiry and age. |
| `TimerTheorems.ScheduleFailsIff` | Lab14 Rootport/system/timers.c:118-127 | TimerSchedule fails exactly when 32 timers are pending. |
| `TimerTheorems.ScheduleIsStable` | Lab14 Rootport/system/timers.c:102-164 | A scheduled timer gets the caller's callback and the expiry now + usec modulo 2^64, goes into a free slot, behind every timer that expires no later and ahead of every one that expires later; taking it out again gives the old list. |
| `TimerTheorems.ScheduledFiresOnTime` | Lab14 Rootport/system/timers.c:112-230 | A timer scheduled usec from now is fired by no poll of any run before now + usec, and from then on a poll that finds it pending fires. |
| `TimerTheorems.FiresWhenDue` | Lab14 Rootport/system/timers.c:209-217 | Over every run a timer is fired only at or after its expiry. |
| `TimerTheorems.CancelRemoves` | Lab14 Rootport/system/timers.c:75-90 | Cancelling a pending slot takes exactly its timer out and leaves the others in order. |
| `TimerTheorems.ServiceCancelRemovesFirst` | Lab14 Rootport/system/timers.c:178-194 | Cancelling a service takes exactly the first timer with that callback and data out and leaves the others in order. |
| `TimerTheorems.HeadOnlyIsExact` | Lab14 Rootport/system/timers.c:209-230 | Looking at the head alone fires if and only if some pending timer is due, and the head precedes all others by expiry and then by scheduling order. |
| `TimerTheorems.DueIsPrefix` | Lab14 Rootport/system/timers.c:209-230 | The due timers a full scan would count are exactly a front part of the list. |
| `TimerDrain.DrainFiresEarliest` | Lab14 Rootport/system/timers.c:203-232 | Polls that all finish, at any times and whatever their callbacks schedule, fire exactly as many of the earliest due timers in order, if no callback cancels one of them. |
| `TimerDrain.DrainLeavesOthers` | Lab14 Rootport/system/timers.c:203-232 | They leave every other timer pending that no callback cancels. |
| `TimerDrain.QuietDrain` | Lab14 Rootport/system/timers.c:203-232 | With the clock standing still and callbacks that make no timer call, k polls fire exactly the min(k, due) earliest due timers in order and leave exactly the others. |
| `TimerDrain.DueTakeTurns` | Lab14 Rootport/system/timers.c:102-232 | Over every run under a clock that never goes back, with any calls between and inside the polls that cancel none of the timers waiting, due timers fire in turn, each until it finishes, before anything scheduled meanwhile. |
| `TimerDrain.PollFiresNext` | Lab14 Rootport/system/timers.c:203-232 | A poll that comes after k that finished fires the k-th of the due timers. |
| `TimerDrain.DueTimerFiresIff` | Lab14 Rootport/system/timers.c:203-232 | Of timers due together, the j-th ever fires if and only if some poll comes after at least j that finished. |
| `TimerDrain.UnfinishedHeadStarvesOthers` | Lab14 Rootport/system/timers.c:215-230 | Over every run in which nothing cancels a due head and no callback finishes, whatever is scheduled and however late it gets, every poll fires that head and no other. |
| `TimerTheorems.RunFiresInOrder` | Lab14 Rootport/system/timers.c:102-232 | Over every run under a clock that never goes back, callbacks fire in order of expiry and, among equals, of scheduling. |
| `TimerTheorems.FiredTimerStaysFirst` | Lab14 Rootport/system/timers.c:146-164 | Nothing a callback schedules gets ahead of the timer being fired. |
| `TimerTheorems.FinishRemoves` | Lab14 Rootport/system/timers.c:215-224 | What reporting TASK_FINISHED removes after the callback has cancelled its own timer: nothing if and only if the slot was not taken again; otherwise the timer the callback put there. |
| `TimerTheorems.FinishRemovesFired` | Lab14 Rootport/system/timers.c:215-224 | What it removes if the timer is still pending: exactly that one, which is still first. |
| `TimerTheorems.UntouchedTimerStays` | Lab14 Rootport/system/timers.c:75-90 | Calls that cancel neither a timer's slot nor its service leave it pending. |
| `TimerTheorems.FinishRemovesOnlyFired` | Lab14 Rootport/system/timers.c:215-224 | A callback that leaves its own timer alone and finishes has exactly that timer removed, whatever else it does. |
| `TimerTheorems.RescheduleLosesTimerIff` | Lab14 Rootport/system/timers.c:118-127 | A callback that cancels its own timer, schedules another and finishes loses the new one if and only if every slot below its own is pending before the call. |
| `TimerTheorems.RescheduleThenFinishLosesTimer` | Lab14 Rootport/system/timers.c:215-221 | A concrete callback that cancels itself, reschedules and finishes, and loses the new timer. |
| `TimerQueue.Timers.constructor` | Lab14 Rootport/system/timers.c:62-66 | An empty list over 32 clear slots. |
| `TimerQueue.Timers.PollMarksPending` | Lab14 Rootport/system/timers.c:118-123 | A slot has a callback if and only if it is in the list. |
| `TimerQueue.Timers.TimerCancel` | Lab14 Rootport/system/timers.c:75-90 | Removes the timer in that slot from the sequence and clears the slot; NULL or a slot that is not pending changes nothing. |
| `TimerQueue.Timers.FindFree` | Lab14 Rootport/system/timers.c:118-127 | Finds the lowest slot that is not pending, or 32. |
| `TimerQueue.Timers.Thread` | Lab14 Rootport/system/timers.c:138-164 | The search loop links the new slot in at its position among the pending timers and moves the head pointer if it comes first. |
| `TimerQueue.Timers.TimerSchedule` | Lab14 Rootport/system/timers.c:102-168 | The pool then holds the sequence with the new timer inserted; NULL exactly when 32 are pending. Without a callback, and only then, no list of pending timers is represented any more. |
| `TimerQueue.Timers.TimerServiceCancel` | Lab14 Rootport/system/timers.c:178-194 | Removes the first timer with that callback and data; succeeds if and only if there is one. |
| `TimerQueue.Timers.TimerPoll` | Lab14 Rootport/system/timers.c:203-232 | Calls back if and only if some pending timer is due, calls the first, and leaves the sequence the model says. |
| `TimerQueue.Timers.Execute` | Lab14 Rootport/system/timers.c:62-232 | Any run on the linked pool leaves the sequence, and makes the calls, of the same run on the sequence model. |
| `XmodemFrame.ProcessXmodem` | Lab14 Rootport/system/xmodem.c:91-142 | Returns the frame's number exactly when header, complement, number and checksum are right, else -1. |
| `XmodemFrame.ProtocolBytes` | Lab14 Rootport/system/xmodem.c:48-64 | The bytes and sizes of the protocol in numbers. |
| `XmodemFrame.SumOfOne` | Lab14 Rootport/system/xmodem.c:127-131 | The sum of one byte is that byte. |
| `XmodemFrame.SumOfConcat` | Lab14 Rootport/system/xmodem.c:127-131 | The sum of two parts is the sum of their sums. |
| `XmodemFrame.ChecksumCounts` | Lab14 Rootport/system/xmodem.c:127-131 | The checksum is the byte values times the number of their occurrences, modulo 256. |
| `XmodemFrame.AcceptsMeans` | Lab14 Rootport/system/xmodem.c:91-142 | The four checks in numbers: header 1, number and complement that add up to 255, number not above the expected one, and that checksum in the last byte. |
| `XmodemFrame.AcceptsIffFrame` | Lab14 Rootport/system/xmodem.c:91-142 | The accepted packets are exactly the frames a sender makes, numbered no higher than expected. |
| `XmodemFrame.OneByteErrorIsRejected` | Lab14 Rootport/system/xmodem.c:106-138 | Changing any one byte of an acceptable frame makes it unacceptable at the same expected block. |
| `XmodemModel.Poll` | Lab14 Rootport/system/xmodem.c:196-307 | Every poll of a live transfer ends it or keeps 1 <= block, 0 <= i < 132 and retry <= 30, and never moves the buffer. |
| `XmodemTheorems.PollWritesOneSlot` | Lab14 Rootport/system/xmodem.c:261-280 | For every byte stream a poll writes at most one 128-byte slot, for an accepted frame, numbered at most the expected block, which grows by at most one. |
| `XmodemTheorems.SlotIsInsideIff` | Lab14 Rootport/system/xmodem.c:271-277 | If the buffer has room for the expected block, the slot lies inside it, at both ends, if and only if the frame is not numbered 0 before the first wraparound; the expected block runs past the end if and only if there is no room. |
| `XmodemTheorems.ZeroFrameRestarts` | Lab14 Rootport/system/xmodem.c:261-280 | A frame numbered 0 is accepted at every expected block; before the first wraparound it is stored below the buffer and the transfer expects block 1 again. |
| `XmodemTheorems.BlockGoesBackIff` | Lab14 Rootport/system/xmodem.c:270-280 | An accepted frame sets the expected block back, leaves it, or moves it on by one, each exactly for the frame numbers it does. |
| `XmodemTheorems.NextBlockIsStored` | Lab14 Rootport/system/xmodem.c:268-283 | A frame for the expected block extends the stored file by that block, across wraparounds. |
| `XmodemTheorems.ResendIsHarmless` | Lab14 Rootport/system/xmodem.c:270-271 | A resend of the block before changes neither block nor memory, and is acknowledged unless its number is 255 mod 256. |
| `XmodemTheorems.FrameKeepsPrefix` | Lab14 Rootport/system/xmodem.c:258-302 | A frame that is refused, or genuine for the expected or the previous block, keeps the buffer a prefix of the file and never sets the expected block back. |
| `XmodemTheorems.RunHoldsPrefix` | Lab14 Rootport/system/xmodem.c:196-307 | If the frames that pass the checks are genuine ones for the expected or the previous block, the buffer holds the file up to the expected block after every mix of bytes and timeouts. |
| `XmodemTheorems.FeedFrame` | Lab14 Rootport/system/xmodem.c:258-302 | 132 bytes polled one by one act as one complete frame. |
| `XmodemTheorems.OneByteErrorOnTheLine` | Lab14 Rootport/system/xmodem.c:234-256 | On the line a one-byte error is refused without effect if and only if it does not make EOT of the header. |
| `XmodemTheorems.IdlePollsDoNothing` | Lab14 Rootport/system/xmodem.c:202-306 | Polls that find no byte, and expiries of the packet timer between frames, make no difference to what is received; each expiry costs one NAK. |
| `XmodemTheorems.TransferDelivers` | Lab14 Rootport/system/xmodem.c:164-307 | A file of any number of blocks, sent without error and polled at any pace that lets the packet timer expire only between frames, arrives complete with one ACK per frame, one for EOT and one NAK per expiry. |
| `XmodemTheorems.ReportedLengthIsExactIff` | Lab14 Rootport/system/xmodem.c:240-246 | The reported length agrees with the trimmed length of the blocks received if and only if all bytes between the two counts are EOF markers; the counts coincide only at 33 blocks. |
| `XmodemTheorems.RepliesAreAccounted` | Lab14 Rootport/system/xmodem.c:202-302 | Over every run ACKs are accepted frames plus the final EOT, and NAKs are refused frames plus retried timeouts. |
| `XmodemTheorems.GivesUpOnRetryLimit` | Lab14 Rootport/system/xmodem.c:202-226 | A run without complete frame or EOT ends exactly when the timer has expired more than 30 times since the last complete frame. |
| `XmodemLink.RoundKeepsStep` | Lab14 Rootport/system/xmodem.c:196-307 | Whatever one transmission suffers, the receiver holds everything acknowledged and expects the block being sent or the next. |
| `XmodemLink.LinkIsSafe` | Lab14 Rootport/system/xmodem.c:196-307 | Against a stop-and-wait sender, over any rounds of damaged, cut or lost frames and lost replies, the receiver holds exactly the file up to its expected block, and the whole file when the sender is done. |
| `XmodemLink.FreshIsInStep` | Lab14 Rootport/system/xmodem.c:164-226 | A transfer just started is in step, after any expiries of its timer up to the limit. |
| `XmodemLink.StuckForever` | Lab14 Rootport/system/xmodem.c:116-124 | While the receiver expects the block after one numbered 255 mod 256 that the sender still sends, no round of any kind moves the transfer on. |
| `XmodemLink.LostWrapStopsTransfer` | Lab14 Rootport/system/xmodem.c:116-124 | Once the acknowledgement of a block numbered 255 mod 256 is lost, no round ever moves the transfer on. |
| `XmodemLink.WrapCanBeLost` | Lab14 Rootport/system/xmodem.c:116-124 | Every file of at least 255 blocks can get there: from the start, 254 clean rounds and one lost reply. |
| `XmodemLink.LinkDeliversIff` | Lab14 Rootport/system/xmodem.c:196-307 | Given as many clean rounds as blocks left, the whole file is delivered if and only if the acknowledgement of a block numbered 255 mod 256 is never lost. |
| `XmodemReceiver.Xmodem.constructor` | Lab14 Rootport/system/xmodem.c:151-154 | No transfer in progress. |
| `XmodemReceiver.Xmodem.XmodemStart` | Lab14 Rootport/system/xmodem.c:164-187 | Refuses exactly while a transfer is live; otherwise starts at block 1. |
| `XmodemReceiver.Xmodem.XmodemPoll` | Lab14 Rootport/system/xmodem.c:196-307 | The structure and both buffers after a poll are what the state machine says, and the status says whether the transfer ended. |
| `XmodemReceiver.Xmodem.TrimEof` | Lab14 Rootport/system/xmodem.c:243-246 | Takes trailing EOF markers off the length. |
| `XmodemModel.TrimIsExact` | Lab14 Rootport/system/xmodem.c:243-246 | The trimmed length ends behind the last byte that is not an EOF marker. |
| `XmodemModel.RetryLimit` | Lab14 Rootport/system/xmodem.c:51-51 | The retry limit is 30. |
| `XmodemReceiver.Xmodem.Complete` | Lab14 Rootport/system/xmodem.c:261-302 | A complete frame is stored in its slot and acknowledged, or refused. |
| `XmodemReceiver.Xmodem.XmodemDownload` | Lab14 Rootport/system/xmodem.c:317-332 | Polling a stream of events to its end is the state machine's run from XmodemStart; -1 while another transfer is live. |
| `TaskModel.TickKeepsTasks` | Lab14 Rootport/system/os.c:173-208 | A tick changes nothing but poll functions, and those only to NULL. |
| `TaskModel.TickClearsIff` | Lab14 Rootport/system/os.c:192-201 | A tick clears the poll function of exactly the tasks whose FINISHED it records, and leaves every other task as it was. |
| `TaskModel.StatusCodes` | Lab14 Rootport/include/system.h:67-69 | The task status codes in numbers. |
| `TaskModel.TickKeepsInUseIff` | Lab14 Rootport/system/os.c:196-201 | A tick leaves every slot in use if and only if no task without data reports FINISHED in it. |
| `TaskModel.TickIgnoresDead` | Lab14 Rootport/system/os.c:185-202 | What a tick polls, reports and leaves live depends on the live tasks alone. |
| `TaskModel.TickPollsInOrder` | Lab14 Rootport/system/os.c:181-207 | A tick polls the live tasks in order up to the first READY one and reports the last one's status, so a task is polled only after all live tasks ahead of it were polled and not READY. |
| `TaskModel.TickReportsNone` | Lab14 Rootport/system/os.c:178-207 | A tick reports -1 exactly when no task is live. |
| `TaskModel.TickUsesPolls` | Lab14 Rootport/system/os.c:192-201 | If every task finishes within its bound, each tick with a live task uses up at least one of the polls left. |
| `TaskListing.RunKeepsInvariant` | Lab14 Rootport/system/os.c:64-208 | Every run of TaskNew, TaskEnd on other than the head, and OsTick in which no task without data finishes keeps the tasks in order of priority, first in first out among equals, all in use. |
| `TaskListing.UnfinishedTaskStays` | Lab14 Rootport/system/os.c:64-208 | Over every run, a listed task that does not report FINISHED and is not ended stays listed unchanged, so a live one stays live. |
| `TaskListing.NewKeepsInvariantIff` | Lab14 Rootport/system/os.c:69-90 | TaskNew keeps that if and only if it is given a poll function or data, or finds no slot. |
| `TaskListing.PassKeepsInvariantIff` | Lab14 Rootport/system/os.c:196-201 | A tick keeps that if and only if no task without data reports FINISHED in it. |
| `TaskListing.FinishedTasksKeepSlots` | Lab14 Rootport/system/os.c:137-149 | Over every such run, TaskEnd included, a listed task without a poll function stays listed. |
| `TaskListing.SlotIsFreedIff` | Lab14 Rootport/system/os.c:137-149 | A call takes a listed slot off the list if and only if it is TaskEnd on it while its task still has its poll function. |
| `TaskListing.SlotsAreConserved` | Lab14 Rootport/system/os.c:64-208 | Over every run the listed slots are those created less those ended, whatever has finished. |
| `TaskListing.FinishedPoolIsDead` | Lab14 Rootport/system/os.c:64-208 | Once as many tasks as the pool holds have finished, no run lists or polls a task again. |
| `TaskList.Scheduler.constructor` | Lab14 Rootport/system/os.c:154-165 | An empty list over clear slots. |
| `TaskList.Scheduler.InUseMarksListed` | Lab14 Rootport/system/os.c:70-75 | While all listed tasks are in use, a slot has a poll function or data if and only if it is listed. |
| `TaskList.Scheduler.TaskNew` | Lab14 Rootport/system/os.c:64-128 | Takes the lowest slot without poll function and data, NULL exactly when there is none. If it is not listed the pool then lists the new task at its place; if it is, the list has become a loop. After the head was ended it writes what its search from the stale head pointer leads to. |
| `TaskList.Scheduler.Thread` | Lab14 Rootport/system/os.c:100-125 | Whatever the walk from the head pointer meets, the search links the slot before the first task of greater priority number, or behind the last, and moves the head pointer if it comes first. |
| `TaskList.Scheduler.TaskEnd` | Lab14 Rootport/system/os.c:137-149 | Removes a running task; the list stays well formed if and only if it was not the head, and otherwise no list is represented. |
| `TaskPool.EndIsRefined` | Lab14 Rootport/system/os.c:137-149 | The same of the links and records themselves, for every slot and every well-formed pool, and what exactly is left when the head is ended. |
| `TaskPool.NewOnList` | Lab14 Rootport/system/os.c:64-128 | Filling and linking a slot off the list gives the list with the new task, whatever its fields. |
| `TaskPool.TakenSlotTiesLoop` | Lab14 Rootport/system/os.c:69-125 | A task that gets a slot still met from the head pointer ties a loop: from there only the slots up to that one are reached, and no end. |
| `TaskPool.DatalessTaskLosesSlot` | Lab14 Rootport/system/os.c:196-201 | A concrete task without data that finishes, stays listed and has its slot found free. |
| `TaskPool.EndedHeadIsReusedIff` | Lab14 Rootport/system/os.c:69-82 | The slot of an ended head is the next TaskNew takes if and only if all lower slots are in use. |
| `TaskPool.ReusedHeadTiesKnot` | Lab14 Rootport/system/os.c:106-125 | A task that gets the slot of the ended head is linked to itself: from the head pointer exactly that slot is reached, and no other. |
| `TaskPool.NewTaskIsLostIff` | Lab14 Rootport/system/os.c:106-125 | A task that gets another slot is never reached from the head pointer if and only if its priority is no less than the ended head's and less than that of the task behind it. |
| `TaskList.Scheduler.OsTick` | Lab14 Rootport/system/os.c:173-208 | Polls, clears and reports as one pass over the listed tasks, also right after the head was ended. |
| `TaskList.Scheduler.Walk` | Lab14 Rootport/system/os.c:180-207 | The loop over the links, stopped by the first READY, leaves the records, polls and status of that pass. |
| `TaskList.Scheduler.OsStart` | Lab14 Rootport/system/os.c:213-221 | If every task finishes after finitely many polls, it stops after at most one tick more than there are polls left, with no poll function left. |
| `TaskList.Scheduler.ExecuteAll` | Lab14 Rootport/system/os.c:64-208 | Any run on the linked pool lists, polls and reports what the sequence model does. |
| `SlotTable.Bumped` | Lab10 Console/system/os.c:78-90 | The slot a new task takes: the first from its priority on that is not in use. |
| `SlotTable.TableNewTakes` | Lab10 Console/system/os.c:78-105 | Creating takes the first slot from the priority on that is not in use, all before it being in use, and touches no other. |
| `SlotTable.TableEndClears` | Lab10 Console/system/os.c:114-125 | Ending clears the slot of a live task and touches no other. |
| `SlotTable.Table.constructor` | Lab10 Console/system/os.c:130-133 | No live task. |
| `SlotTable.Table.TaskNew` | Lab10 Console/system/os.c:69-105 | Stores the task in that slot and returns it; -1 exactly when every slot from its priority on is in use. |
| `SlotTable.Table.TaskEnd` | Lab10 Console/system/os.c:114-125 | Clears the slot of a live task; -1 otherwise. |
| `SlotTable.Table.OsTick` | Lab10 Console/system/os.c:141-174 | Polls, clears and reports as one pass over the table. |
| `SchedulerAgreement.NewAgrees` | Lab10 Console/system/os.c:69-105 | Creating a task of a new priority keeps the same tasks live in the same order in both schedulers, and the list has room for it. |
| `SchedulerAgreement.EndAgrees` | Lab10 Console/system/os.c:114-125 | So does ending a listed task. |
| `SchedulerAgreement.SchedulersAgree` | Lab14 Rootport/system/os.c:173-208 | For tasks created with distinct priorities in range, list and table poll the same tasks in the same order and report the same status on every tick of every run. |
| `SchedulerAgreement.SchedulersAgreeFromStart` | Lab14 Rootport/system/os.c:154-165 | So they do from the empty list and the empty table on. |
| `Memory.MemCpy` | Lab14 Rootport/system/string.c:181-223 | The 64-bit, 32-bit and byte strides with the odd index step are the byte loop, for every length, alignment and overlap. |
| `Memory.Copy64` | Lab14 Rootport/system/string.c:190-202 | Copies as many aligned 8-byte words as fit. |
| `Memory.Copy32` | Lab14 Rootport/system/string.c:204-216 | Copies as many aligned 4-byte words as fit. |
| `Memory.WordIsBytes` | Lab14 Rootport/system/string.c:190-216 | A word read and written whole is the same as its bytes one by one, because aligned addresses are a word apart or equal. |
| `Memory.RecopyLastByte` | Lab14 Rootport/system/string.c:201-220 | Copying the last byte again after a run of words changes nothing. |
| `Memory.ForwardCopyMoves` | Lab14 Rootport/system/string.c:181-223 | Each destination byte gets the original source byte and nothing else changes, for disjoint regions and for overlap with dst <= src. |
| `Memory.CopyMovesIff` | Lab14 Rootport/system/string.c:181-223 | That holds of all memories if and only if the destination does not start inside the source. |
| `Memory.OverlapRepeats` | Lab14 Rootport/system/string.c:181-223 | Otherwise the bytes before the destination repeat through it, and nothing else changes. |
| `Memory.MemSet` | Lab14 Rootport/system/string.c:234-243 | Exactly the given bytes get the value. |
| `ScreenModel.ScrollShifts` | Lab12 Animation/system/screen.c:213-269 | Unless the check stops it, a scroll moves every console row above the cursor up one character line, blackens the cursor's line and changes no other byte of memory. |
| `ScreenModel.ErasesAllIff` | Lab12 Animation/system/screen.c:240-261 | The whole line is erased exactly when the check passes its last row. |
| `ScreenModel.TextKeepsPlaced` | Lab12 Animation/system/screen.c:275-338 | For every text the cursor keeps x < cursorWidth, y a multiple of 20 and y + 20 < cursorHeight. |
| `ScreenModel.GuardNeverTrips` | Lab12 Animation/system/screen.c:250-256 | With two rows of frame below the console the check never stops a scroll. |
| `ScreenModel.GuardInPixels` | Lab12 Animation/system/screen.c:250-256 | For every console, the pixels at which the check stops. |
| `ScreenModel.GuardTripsIff` | Lab12 Animation/system/screen.c:250-256 | On a console as wide as the frame it stops exactly in the last three rows. |
| `ScreenModel.FullScreenStopsIff` | Lab12 Animation/system/screen.c:222-261 | A full-screen console scrolls only on its bottom line, and there the scroll is not completed if and only if the console has more than one line and the height is 1 or 2 above a multiple of 20. |
| `ConsoleText.PixelAfterSet` | Lab12 Animation/system/screen.c:84-103 | Setting a pixel changes that pixel, if it is on the screen, and no other. |
| `ConsoleText.DrawnShowsFont` | Lab12 Animation/system/screen.c:352-376 | Drawing a character gives every pixel of its cell what the font says, clipped to the screen, and keeps every other pixel. |
| `ScreenImage.CharacterShows` | Lab12 Animation/system/screen.c:352-376 | On the screen, drawing a character inks the pixels of its 8 by 20 cell that the font sets, blackens the rest of a space, and changes no other pixel. |
| `ScreenImage.ScrollShows` | Lab12 Animation/system/screen.c:213-269 | On the screen, a scroll moves the console's pixels up 20 rows, blackens the rows the check lets it, and changes no other pixel. |
| `ScreenImage.DisplayedShows` | Lab12 Animation/system/screen.c:463-483 | What each character does to cursor and image: backspace, line feed, return, and a printable character shown at the cursor. |
| `ScreenImage.TextShows` | Lab12 Animation/system/screen.c:494-512 | A whole text shows what typing its characters one by one does to the image. |
| `ScreenImage.BackspaceUndoes` | Lab12 Animation/system/screen.c:308-338 | A backspace takes the cursor back over a character that did not end its line. |
| `ScreenImage.CellSize` | Lab12 Animation/system/character.c:46-48 | A character cell is 8 by 20 pixels. |
| `ConsoleText.DisplayedAll` | Lab12 Animation/system/screen.c:494-512 | A text moves the cursor as its characters do one by one. |
| `ConsoleText.TextStaysInside` | Lab12 Animation/system/screen.c:84-103 | No text of any length changes a byte outside the framebuffer. |
| `ScreenDevice.TrimIsKeptIff` | Lab12 Animation/system/screen.c:142-202 | The size screen_init trims is the size screen_device_init leaves if and only if offset and size together are within the frame. |
| `ScreenDevice.GameConsoleIsNotTrimmed` | Lab12 Animation/system/screen.c:142-202 | For the configuration of the Lab12 game they differ, and the console suits all the same. |
| `ScreenDevice.Device.constructor` | Lab12 Animation/system/screen.c:129-206 | For every configuration, the console starts with the cursor at its offset, and is valid if and only if the frame fits memory and a character and a line fit behind the offset. |
| `ScreenDevice.Device.Scroll` | Lab12 Animation/system/screen.c:213-269 | Leaves the memory the model says, in place, and reports whether the check stopped it. |
| `ScreenDevice.Device.CopyLine` | Lab12 Animation/system/screen.c:229-237 | Copies the 20 rows of one character line up, one `memcpy` a row. |
| `ScreenDevice.Device.EraseLine` | Lab12 Animation/system/screen.c:243-260 | Blackens rows until the line or the check ends. |
| `ScreenDevice.Device.CarriageReturn` | Lab12 Animation/system/screen.c:275-279 | The cursor goes to the left edge. |
| `ScreenDevice.Device.CursorDown` | Lab12 Animation/system/screen.c:285-292 | The cursor goes down a line, or stays and the console scrolls. |
| `ScreenDevice.Device.NewLine` | Lab12 Animation/system/screen.c:298-302 | Left edge, one line down. |
| `ScreenDevice.Device.CursorLeft` | Lab12 Animation/system/screen.c:308-325 | One character back, to the end of the line above at the left edge, and not above the first line. |
| `ScreenDevice.Device.CursorRight` | Lab12 Animation/system/screen.c:331-338 | One character on, or to the next line at the right edge. |
| `ScreenDevice.Device.SetPixel` | Lab12 Animation/system/screen.c:84-103 | Writes one pixel if it is on the screen. |
| `ScreenDevice.Device.DisplayCursorChar` | Lab12 Animation/system/screen.c:352-376 | Draws the whole cell, pixel by pixel. |
| `ScreenDevice.Device.DisplayCharacter` | Lab12 Animation/system/screen.c:445-483 | Does to cursor and memory what the model says of that character. |
| `ScreenDevice.Device.DisplayString` | Lab12 Animation/system/screen.c:494-512 | Displays the text up to the first NUL or the length, and returns how much. |
| `Numerals.Ksprintn` | Lab14 Rootport/system/printf.c:82-96 | The buffer read backwards is the numeral, after a NUL, and 33 bytes are enough for every word and base. |
| `Numerals.NumeralIsDigits` | Lab14 Rootport/system/printf.c:89-92 | A numeral is digits of its base, with letters of the case asked for, without a leading zero. |
| `Numerals.DigitsAreTheTable` | Lab14 Rootport/system/printf.c:57-63 | The digits are those of the code's table, or its capitals. |
| `Numerals.ReadNumeral` | Lab14 Rootport/system/printf.c:89-92 | Reading a numeral gives back the number. |
| `Numerals.NumeralIsCanonical` | Lab14 Rootport/system/printf.c:89-92 | Every digit string without leading zeros is the numeral of what it reads as. |
| `Numerals.Atoi` | Lab14 Rootport/system/stdio.c:160-171 | Evaluates the text up to its NUL in 32-bit arithmetic. |
| `Numerals.AtoiOneMore` | Lab14 Rootport/system/stdio.c:160-171 | One more character, digit or not, makes ten times as much plus its distance from '0', in 32 bits. |
| `Numerals.AtoiOfDecimal` | Lab14 Rootport/system/stdio.c:160-171 | `atoi` of a printed word gives it back if and only if it is below 2^31. |
| `Printf.FormatNumber` | Lab14 Rootport/system/printf.c:381-421 | The padding scheme with its three uses of `width` prints sign, prefix, padding and digits where the format wants them. |
| `Printf.LayoutIsText` | Lab14 Rootport/system/printf.c:381-421 | What is printed where: a minus sign exactly before a negative value, 0 or 0x exactly when asked for a value other than zero, the digits, and zeros or spaces in front, between or behind. |
| `Printf.MeaningIsValue` | Lab14 Rootport/system/printf.c:381-385 | The value printed is the word's, signed or unsigned. |
| `Printf.LayoutLength` | Lab14 Rootport/system/printf.c:386-419 | Exactly max(width, digits + sign + prefix) characters. |
| `Printf.ReadsBackIff` | Lab14 Rootport/system/printf.c:381-421 | The text reads back to the signed or unsigned value if and only if it is not left-adjusted and zero-padded with room to pad and a nonzero value. |
| `Printf.PutByte` | Lab14 Rootport/system/stdio.c:180-200 | Two upper-case hexadecimal digits, high one first. |
| `Printf.PutU32` | Lab14 Rootport/include/stdio.h:49-50 | The eight hexadecimal digits of the word. |
| `Printf.HexAgrees` | Lab14 Rootport/include/stdio.h:49-50 | "%08X" prints the same eight characters. |
| `Random.UnshiftInverts` | Lab14 Rootport/system/rand.c:49-60 | The generator's step can be undone. |
| `Random.XorShiftInverts` | Lab14 Rootport/system/rand.c:49-60 | And the undoing redone: the step has an exact inverse on both sides. |
| `Random.FirstStates` | Lab14 Rootport/system/rand.c:49-60 | The first states from seed 1, in numbers. |
| `Random.RunIsReversible` | Lab14 Rootport/system/rand.c:77-81 | The state after any number of calls determines the state before them. |
| `Random.ZeroOnlyFromZero` | Lab14 Rootport/system/rand.c:67-81 | A run yields zero if and only if it was seeded with zero. |
| `Random.Generator.Srand` | Lab14 Rootport/system/rand.c:67-70 | The state is the seed, one step on. |
| `Random.Generator.Rand` | Lab14 Rootport/system/rand.c:77-81 | Successive calls return successive states. |
| `UsbEndpoint.GroupingDoesNotMatter` | Lab14 Rootport/usb/endpoint.c:150-172 | However packets are grouped into calls, the PID is that of toggling once per packet (section 8.6 of USB 2.0). |
| `UsbEndpoint.ControlTransferToggles` | Lab14 Rootport/usb/endpoint.c:150-172 | After setup the data stage toggles from DATA1, one toggle per packet: the next PID is DATA1 after an even number of packets and DATA0 after an odd one. |
| `UsbEndpoint.Endpoint.EndpointControl` | Lab14 Rootport/usb/endpoint.c:70-82 | All fields of a control endpoint of the device, which expects SETUP. |
| `UsbEndpoint.Endpoint.EndpointGetNextPID` | Lab14 Rootport/usb/endpoint.c:124-134 | DATA1 for a status stage, else the next PID. |
| `UsbEndpoint.Endpoint.EndpointSkipPID` | Lab14 Rootport/usb/endpoint.c:143-178 | Moves the next PID on by the packets, or back to SETUP after a status stage. |
| `UsbEndpoint.Endpoint.Transfer` | Lab14 Rootport/usb/endpoint.c:124-178 | A whole control transfer, in any grouping, toggles once per packet since setup and ends at SETUP. |

## Left out

- Poll functions that create or end tasks, or callbacks that call TimerPoll, from inside a tick: a task's poll is an outcome only.
- A task's `stdio`, and `StdioState` routing in general: output plumbing.
- Runs that go on after a timer was scheduled without a callback, a task got a listed slot, or a task was created behind an ended head: the calls that lead there are modelled, what later calls make of it is not.
- Poll functions that return other than the three task codes: such a status counts as idle, and a task that returns -1 last can end OsStart.
- `struct timer.last`, and boards without a 64-bit clock: the model takes `TimerRemaining` to be zero exactly when the clock has reached the expiry, as `Lab14 Rootport/boards/rpi/board.c` does with the 64-bit clock.
- Clocks so late that an expiry exceeds 64 bits: `TimerTheorems.RunFiresInOrder` asks for expiries that fit, while scheduling itself wraps as in the code.
- Overflow of the `int` that counts blocks and of `(block - 2) * 132`, from about 16 million blocks on: the model counts without bound.
- The `length` argument of XmodemStart, which the code never checks: the receiver's methods ask for memory that has room.
- Lines that insert bytes or drop them from the middle of a frame: `XmodemLink` has rounds that damage a byte, cut or drop a frame, or lose a reply; `XmodemTheorems.RunHoldsPrefix` covers any bytes whose accepted frames are genuine.
- Lengths of 2^31 bytes and more in `memcpy` and `memset`, where the `int` index would wrap.
- Re-entry of the console from the message `scroll` prints when its check stops it.
- The 16-bit colour conversion in `set_pixel`: a colour is given as the bytes of a pixel.
- Format parsing in `kvprintf`, its conversions that are not numbers, and its argument types: the model starts at a 32-bit word with its flags.
- `shell.c`, `console.c`, framebuffer setup, GPIO, USB device and host code, and the remaining string functions: hardware or short code that would only add easy members.
- EndpointCopy and EndpointRelease: assignments of fields.
- The period of the random number generator.
