# A verified model of the NachOS kernel

This project models the NachOS teaching operating system, as extended here with a priority scheduler and
demand paging, and proves properties of the model for all inputs, all runs and all interleavings. It
covers the parts in which the code is hard to see right:

- the synchronization kernel: semaphores, locks, condition variables, the synchronized list, the
  synchronous disk, the scheduler and the post office (`Semaphores`, `Locks`, `Monitor`, `SynchLists`,
  `SynchDisks`, `Scheduling`, `PostOffices`);
- the file system on disk, from the bits of the free map up to whole sequences of operations (`Disks`,
  `Bitmaps`, `FileHeaders`, `OpenFiles`, `Directories`, `DiskImages`, `FileSystems`, `OpenHandles`, `StaleWrites`);
- demand paging: the machine, the abstract steps it refines, which pages keep their contents over all runs,
  which are evicted, and what programs read (`NoffFiles`, `VirtualMemory`, `Paging`, `PageSurvival`, `PageLoss`,
  `PageReplacement`, `PagedMemory`, `SamplePrograms`);
- the interrupt queue and the simulated clock (`Interrupts`);
- arithmetic and timing of the simulated hardware (`Multiplication`, `UnalignedAccess`, `DiskTiming`);
- the linked list, the sorted list and the hash table (`Lists`, `HashTables`).

`dafny verify dfyconfig.toml` checks everything.

How to read it. P, V and the scheduler run with interrupts disabled, so a thread can lose the processor
only inside Sleep and Yield and where interrupts are enabled again. The synchronization modules are step
systems over the pieces of code between such points: a state, the events that can come next, an invariant,
a lemma that every event keeps it, and theorems about all reachable states. The code's ASSERTs are a
predicate (`Safe` or `Asserts`) that is proved to hold before every step; what callers must see to is in
`Enabled`. Objects that the code changes in place are classes; their methods are proved against functions
or relations on values, and the theorems are about those.

Where a wanted property is false, the model says so and gives the exact condition. That a page holds at the
next access what it held after the last one is false of the fault handler, which writes a page back at its
virtual address, fills it from its segment's offset, and leaves the rest of the frame as it was:
`PageLoss.KeepsIff` and `PageLoss.KeepsUnwrittenIff` say for which programs, files and pages it holds in every
run, and module `SamplePrograms` has programs that lose a page. That the victim is the least recently used page, as
the name says, holds in every run exactly if there is room for all pages: `PageReplacement.LeastRecentIff`. The condition
is for the Nachos file system, whose WriteAt stops at the file's end; the UNIX files of FILESYS_STUB grow
instead and are not modelled. `DiskTiming.ServedEarlyIff` gives the exact case in which the track buffer serves
a sector that has not yet gone by, `StaleWrites.HarmlessIff` when a write through a handle of a removed file can
do no harm, and `PostOffices.WorkAssertsIff` what senders must check for the receiver.

Places where the code and its comments differ; the model follows the code:

- `Machine::findFreeByLRU` evicts a frame with the smallest count of uses since it was filled
  (code/machine/machine.cc:222-232; `PageSurvival.StampCountsUses`, `VirtualMemory.VictimIff`). That can be the page
  used last: `PageLoss.MostRecentIsEvicted`, `PageReplacement.LeastRecentIff`.
- `Thread::Yield` puts the yielding thread on the ready list before it looks for the next one, so it can
  be dispatched again at once (code/threads/thread.cc:232-234).
- File names are compared, and unique, on their first nine characters only (code/filesys/directory.cc:89-97).
- `List::Append` and its callers require that the item is not on the list yet; in a synchronized list this
  is the callers' duty (code/lib/list.cc:79).

## Model

| member | source | states |
|---|---|---|
| `Semaphores.PSegmentPreserves` | code/threads/synch.cc:75-92 | A pass of P's loop keeps the semaphore's invariant: while a thread sleeps on the queue, every unit of the value is matched by a woken thread that will come for it. |
| `Semaphores.VSegmentPreserves` | code/threads/synch.cc:102-117 | V keeps the same invariant. |
| `Semaphores.RunPreserves` | code/threads/synch.cc:75-117 | Over every interleaving of any number of threads and interrupt handlers the invariant and the count of completed calls hold. |
| `Semaphores.ValueIsConserved` | code/threads/synch.cc:75-117 | In every run the value is the initial value plus completed Vs minus completed Ps, and not negative. |
| `Semaphores.NoLostWakeup` | code/threads/synch.cc:84-113 | In every run, if threads sleep on the queue, the value is at most the number of woken threads still to test it again; barging threads included. |
| `Semaphores.RunTells` | code/threads/synch.cc:75-117 | In terms of the calls made: every call of P has returned or is inside, every call of V counts, the sleepers are in the order in which they tested the value, and a thread inside P that has tested it is asleep or was woken, never spinning. |
| `Semaphores.LongestSleeperFirst` | code/threads/synch.cc:110-113 | In every run V readies the thread that has slept longest, and the others sleep on in their order. |
| `Semaphores.DispatchEffect` | code/threads/synch.cc:84-88 | In every run a dispatched thread returns with a unit if there is one, and is asleep behind all others if not. |
| `Semaphores.Semaphore.PAttempt` | code/threads/synch.cc:84-88 | One pass of P's loop: with a unit the caller takes it, without one it is at the end of the queue; the invariant is kept. |
| `Semaphores.Semaphore.V` | code/threads/synch.cc:102-117 | The value grows by one, and the first sleeper, if any, leaves the queue and is the thread to make ready. |
| `Locks.AdvancePreserves` | code/threads/synch.cc:181-203 | Each step of Acquire and Release keeps: the semaphore's value plus the number of threads between Acquire's P and Release's V is one, also in the windows around the assignment of lockHolder. |
| `Locks.MutualExclusion` | code/threads/synch.cc:181-203 | At most one thread is between Acquire's P and Release's V, and value plus their number is 1. |
| `Locks.FreeLockIsTaken` | code/threads/synch.cc:181-203 | If the lock is free and a thread wants it, some thread inside Acquire is awake and can take it. |
| `Locks.AloneTakesAndGivesBack` | code/threads/synch.cc:181-203 | Left alone, a thread gets a free lock in three steps and gives it back in two, the holder set and cleared on the way; then the lock is as before and its longest sleeper woken. |
| `Locks.TakenMeansAsleep` | code/threads/synch.cc:181-185 | A thread that finds the lock taken is asleep behind all others. |
| `Monitor.NextPreserves` | code/threads/synch.cc:240-297 | Each step of each thread, in Wait, Signal, Broadcast or the lock, keeps the monitor's invariant. |
| `Monitor.ReachableInv` | code/threads/synch.cc:240-297 | The invariant holds in every state that any interleaving reaches. |
| `Monitor.StepsAreSafe` | code/threads/synch.cc:181-297 | In every reachable state the code's assertions hold for the next step, and no step touches a semaphore that is not allocated. |
| `Monitor.MonitorExclusion` | code/threads/synch.cc:181-297 | At most one thread is inside the monitor, in every reachable state. |
| `Monitor.DeleteIsLast` | code/threads/synch.cc:244-262 | When a waiter deletes its private semaphore, no other thread is inside its P or V or about to be, and it is no longer on waitQueue. |
| `Monitor.SignalIsNotLost` | code/threads/synch.cc:244-285 | A signal sent to a waiter after it queued itself, but before it called P, leaves a unit in the private semaphore: the waiter will not sleep. |
| `Monitor.BroadcastStep` | code/threads/synch.cc:291-297 | Any step of any thread keeps a Broadcast under way on course. |
| `Monitor.BroadcastWakesExactlyTheWaiters` | code/threads/synch.cc:291-297 | However other threads interleave, Broadcast returns after exactly three steps per waiter plus one, having done V on exactly the waiters queued at the call, in queue order. |
| `Monitor.StepsAreInOrder` | code/threads/synch.cc:181-297 | The parts of Acquire, Release, Wait, Signal and Broadcast follow each other as in the code, and a thread that does not get on is asleep on the lock or on its own semaphore. |
| `Monitor.SharedChanges` | code/threads/synch.cc:240-297 | The queue and the private semaphores change only by a waiter's new semaphore at the end of the queue, a signaller's taking the first one off, its V, and the waiter's P and delete. |
| `Monitor.LongestWaiterFirst` | code/threads/synch.cc:244-285 | In every reachable state the queue is in the order of the calls of Wait, so Signal wakes the longest waiter. |
| `Monitor.Condition.Signal` | code/threads/synch.cc:273-284 | Called by the lock's holder: the first waiter leaves the queue, its semaphore gets one V, and the thread made ready is the one that sleeps there; the other waiters are untouched. |
| `Monitor.Condition.Broadcast` | code/threads/synch.cc:291-297 | Every waiter's semaphore gets exactly one V, their threads are made ready in the order of the queue, and the queue ends empty. |
| `SynchLists.NextPreserves` | code/threads/synchlist.cc:51-81 | Each step of Append and RemoveFront, interleaved in any way, keeps the list's invariant. |
| `SynchLists.StepsAreSafe` | code/threads/synchlist.cc:51-81 | In every reachable state no assertion of list, lock or condition fails at the next step. |
| `SynchLists.FirstInFirstOut` | code/threads/synchlist.cc:51-81 | In every reachable state the items appended are the items removed followed by the list: nothing lost, duplicated or reordered. |
| `SynchLists.CallsAreServed` | code/threads/synchlist.cc:51-81 | In every run the items passed to Append are, each as often, those that went through the list and those of calls that have not got to it yet; and the calls of RemoveFront have returned the items removed, in that order, but for one that a call may still carry. |
| `SynchLists.ListChanges` | code/threads/synchlist.cc:54-78 | The list changes only when a thread inside Append puts its own item at the end, or a thread inside RemoveFront takes the first one, to return it. |
| `SynchLists.StepsAdvance` | code/threads/synchlist.cc:51-81 | Every step takes its call on, unless the thread has to wait for the lock or an item, and then it is asleep. |
| `SynchLists.NoItemIsStranded` | code/threads/synchlist.cc:69-81 | While threads wait on the condition and the lock's owner is neither between putting an item on the list and calling Signal nor between finding an item and taking it, the list is no longer than the number of signalled threads that have not rechecked it. |
| `SynchLists.StuckOnlyWhenEmpty` | code/threads/synchlist.cc:51-81 | If nobody inside a call can go on, all unfinished calls are RemoveFronts asleep in Wait, the lock is free, and the list is empty. |
| `SynchDisks.NextPreserves` | code/filesys/synchdisk.cc:57-94 | Each step of a caller and each disk interrupt keeps the protocol's invariant. |
| `SynchDisks.OneRequestAtATime` | code/machine/disk.cc:113-163 | In every reachable state the disk's one-request assertion holds, at most one disk interrupt is pending, and the semaphore is 0 or 1. |
| `SynchDisks.ReturnsAfterOwnInterrupt` | code/filesys/synchdisk.cc:57-83 | A call gets past its P only after the interrupt of its own request. |
| `SynchDisks.NoCallHangs` | code/filesys/synchdisk.cc:57-94 | While a call is unfinished, some thread or the interrupt can take a step. |
| `SynchDisks.OneRequestPerCall` | code/filesys/synchdisk.cc:57-83 | In every run, each call that has returned or is past its P has issued exactly one request, its own, which has been answered; the disk has answered once for each interrupt. |
| `SynchDisks.StepsAreInOrder` | code/filesys/synchdisk.cc:57-83 | A call acquires the lock, issues the request, does P, and releases the lock, in this order; a step that does not get on leaves its thread asleep. |
| `Scheduling.StepKeeps` | code/threads/thread.cc:114-274 | In each state of the invariant the assertions of Fork, Yield, Sleep, Run and ~Thread hold (not on the ready list, nothing else to be destroyed, not the current thread), and the step keeps the invariant. |
| `Scheduling.RunKeeps` | code/threads/scheduler.cc:65-172 | Over every run from the first thread on, the invariant holds and no assertion fires. |
| `Scheduling.OnePlace` | code/threads/scheduler.cc:65-172 | Every thread is in exactly one place: on the processor, once on the ready list, blocked, just created, to be destroyed, or deleted; also while a sleeper idles and is woken by a handler. |
| `Scheduling.KnownAfterStep` | code/threads/thread.cc:114-274 | No step loses a thread or makes one up; only creation adds one. |
| `Scheduling.ReadyMoves` | code/threads/thread.cc:114-128 | Fork moves a new thread, and V a sleeping one, to the ready list; no other thread moves. |
| `Scheduling.OwnMoves` | code/threads/thread.cc:180-274 | The running thread makes a new one, goes to sleep or finishes; no other thread moves. |
| `Scheduling.DispatchMoves` | code/threads/scheduler.cc:66-150 | The thread dispatched has greatest priority among the ready ones and is earliest among equals; a finishing thread is marked; no other thread moves. |
| `Scheduling.ResumeMoves` | code/threads/scheduler.cc:150-172 | The marked thread is deleted by the one that runs next; no other thread moves. |
| `Scheduling.YieldMoves` | code/threads/thread.cc:220-240 | The yielding thread goes to the ready list and the first thread there gets the processor; no other thread moves. |
| `Scheduling.YieldPicksBest` | code/threads/thread.cc:221-237 | Yield dispatches a thread of greatest priority among the ready ones and the current one; of several, the one that became ready first, the current one last. |
| `Scheduling.YieldKeepsProcessor` | code/threads/thread.cc:221-237 | A yielding thread keeps the processor exactly if all ready threads have lower priority. |
| `Scheduling.YieldMovesUp` | code/threads/scheduler.cc:43-72 | A ready thread not outranked by the one that yields moves up one place. |
| `Scheduling.RoundRobin` | code/threads/scheduler.cc:43-91 | A ready thread at place k that no thread outranks runs after k + 1 yields. |
| `Scheduling.PriorityOrdering` | code/threads/scheduler.cc:43-50 | Comparing priorities, greater first, is a total preorder, as a sorted list needs. |
| `Scheduling.SetPriority` | code/threads/thread.h:98-106 | Priorities are forced into 1 to 7 and kept if they are there already. |
| `Scheduling.Scheduler.ReadyToRun` | code/threads/scheduler.cc:65-72 | The ready list gains the thread at its place. |
| `Scheduling.Scheduler.FindNextToRun` | code/threads/scheduler.cc:82-91 | The first ready thread, removed; none if the list is empty. |
| `Scheduling.Scheduler.Run` | code/threads/scheduler.cc:110-130 | The next thread is current, and a finishing one is marked to be destroyed. |
| `Scheduling.Scheduler.CheckToBeDestroyed` | code/threads/scheduler.cc:166-172 | The marked thread is deleted, and it is not the current one. |
| `Scheduling.Scheduler.Fork` | code/threads/thread.cc:114-128 | The ready list gains just this thread, which is no longer a new one; the step is that of the model. |
| `Scheduling.Scheduler.Wake` | code/threads/synch.cc:110-113 | The ready list gains just this thread, which no longer sleeps; the step is that of the model. |
| `Scheduling.Scheduler.Yield` | code/threads/thread.cc:221-237 | The whole of Yield up to the switch is the step of the model. |
| `Scheduling.Scheduler.SleepRound` | code/threads/thread.cc:259-274 | A round of Sleep's loop dispatches the first ready thread, or leaves all as it is if there is none. |
| `Interrupts.PendingOrdering` | code/machine/interrupt.cc:57-63 | Comparing times is a total preorder, as a sorted list needs. |
| `Interrupts.DueAfterInsert` | code/machine/interrupt.cc:256-268 | Scheduling changes the number of due interrupts only by an entry that is due itself. |
| `Interrupts.InOrderAfterInsert` | code/machine/interrupt.cc:58-63 | An entry scheduled later goes behind those of its time: the list stays in order of time and of scheduling. |
| `Interrupts.SteadyAfterSchedule` | code/machine/interrupt.cc:256-268 | Schedule keeps order, account and punctuality, and adds no due entry. |
| `Interrupts.SteadyAfterAll` | code/machine/interrupt.cc:314-319 | So does a handler that schedules any number of interrupts. |
| `Interrupts.AllAreScheduled` | code/machine/interrupt.cc:256-268 | A handler's requests are all scheduled, in order, each with its handler and for its time. |
| `Interrupts.SteadyAfterFire` | code/machine/interrupt.cc:314-317 | Firing the first pending interrupt keeps them, and one due entry less remains. |
| `Interrupts.FiringOrder` | code/machine/interrupt.cc:280-322 | If an interrupt has fired, every one scheduled for an earlier time, or earlier for the same time, fired before it. |
| `Interrupts.FiresOnce` | code/machine/interrupt.cc:256-322 | Every interrupt scheduled has fired once or is pending once. |
| `Interrupts.Interrupt.Schedule` | code/machine/interrupt.cc:256-268 | The entry is inserted at its place in the pending list, nothing due is added, and the invariant kept. |
| `Interrupts.Interrupt.FireNext` | code/machine/interrupt.cc:314-317 | One round of the loop: the first pending interrupt fires now; one entry for each request of its handler, in order, is scheduled and nothing else; one due entry less remains; a yield is noted exactly if it was before or this handler asks. |
| `Interrupts.Interrupt.FireDue` | code/machine/interrupt.cc:313-320 | The handler loop ends although handlers schedule more, leaves only interrupts in the future pending, and has scheduled exactly what the handlers of the interrupts fired asked for, in firing order. |
| `Interrupts.Interrupt.CheckIfDue` | code/machine/interrupt.cc:280-322 | Fires exactly if something is due, or pending and the clock may be advanced; the clock then jumps to the first entry's time, in idle ticks. Afterwards all pending ones are in the future, and exactly what the handlers asked for has been scheduled. |
| `Interrupts.Interrupt.OneTick` | code/machine/interrupt.cc:147-176 | Ten system ticks in system mode, one user tick otherwise; all that is due has fired, at most nine ticks late, and what the handlers asked for has been scheduled; a switch follows exactly if one was asked for before or by a handler fired now. |
| `Interrupts.Interrupt.SetLevel` | code/machine/interrupt.cc:123-137 | If interrupts go from off to on, time advances by one tick of the mode and a switch follows as in OneTick; otherwise neither time nor interrupts move. |
| `Interrupts.Interrupt.Idle` | code/machine/interrupt.cc:207-228 | Halts exactly if nothing is pending; otherwise the clock jumps, in idle ticks, to the first pending time, that interrupt fires, and what its handler asked for has been scheduled. |
| `Interrupts.Interrupt.Execute` | code/machine/interrupt.cc:123-322 | Over any sequence of operations, until the machine halts, each schedules what the device or the handlers of the interrupts fired ask for, and nothing else; the clock never goes back. |
| `Lists.InsertedAt` | code/lib/list.cc:234-260 | The new item goes between the items not greater and the first greater one. |
| `Lists.InsertedSorted` | code/lib/list.cc:219-260 | A sorted list stays sorted. |
| `Lists.InsertedItems` | code/lib/list.cc:234-260 | Nothing else is added or lost. |
| `Lists.StableSort` | code/lib/list.cc:219-260 | Inserting one by one is a stable sort: the same items, in order, and those that compare equal in the order of insertion. |
| `Lists.List.IsInList` | code/lib/list.cc:185-197 | Whether the item is among the items. |
| `Lists.List.Append` | code/lib/list.cc:73-89 | The linked nodes hold the old items and then the new one. |
| `Lists.List.Prepend` | code/lib/list.cc:96-112 | The linked nodes hold the new item and then the old ones. |
| `Lists.List.RemoveFront` | code/lib/list.cc:123-142 | The first item, and the nodes hold the rest. |
| `Lists.List.Remove` | code/lib/list.cc:149-178 | Exactly the one occurrence of the item is gone, the order of the others kept, and the final assertion holds. |
| `Lists.List.Insert` | code/lib/list.cc:232-260 | The linked sorted list refines the stable insertion above. |
| `HashTables.SlotInTable` | code/lib/hash.cc:87-94 | The bucket number is the hash modulo the number of buckets, and legal. |
| `HashTables.LookupInBucket` | code/lib/hash.cc:191-198 | Looking in the key's one bucket is enough to decide whether, and with which item, the key is in the table. |
| `HashTables.InsertInTable` | code/lib/hash.cc:108-125 | A new item at the end of its bucket makes a legal table for the map with that item. |
| `HashTables.RemoveFromTable` | code/lib/hash.cc:208-223 | Taking an item out makes a legal table for the map without its key. |
| `HashTables.FlatIsMap` | code/lib/hash.cc:331-360 | The items in bucket order are the map's items, each once. |
| `HashTables.MovedTable` | code/lib/hash.cc:134-153 | Putting all items of a table one by one into empty buckets gives a legal table for the same map. |
| `HashTables.Larger` | code/lib/hash.cc:134-153 | This holds with four times as many buckets, each item in the bucket its key now hashes to. |
| `HashTables.HashTable.Find` | code/lib/hash.cc:191-198 | The item the map holds for the key, or none. |
| `HashTables.HashTable.Insert` | code/lib/hash.cc:108-125 | The map gains the item; the table stays legal, with at most three items per bucket on average. |
| `HashTables.HashTable.Remove` | code/lib/hash.cc:208-223 | The map's item for the key, and the map without it. |
| `HashTables.HashTable.ReHash` | code/lib/hash.cc:134-153 | The same map in four times the buckets. |
| `HashTables.HashTable.MoveAll` | code/lib/hash.cc:144-149 | The two nested loops over linked lists compute what one-by-one insertion does on sequences. |
| `HashTables.TooFull` | code/lib/hash.cc:116-118 | The integer division decides exactly whether there are three items per bucket. |
| `HashTables.HashIterator.Next` | code/lib/hash.cc:347-360 | The items still to come are those before without the first. |
| `HashTables.HashIterator.Item` | code/lib/hash.h:110-110 | The first of the items still to come. |
| `HashTables.VisitAll` | code/lib/hash.cc:331-360 | A walk with the iterator visits each item of the table exactly once. |
| `PostOffices.HeaderRoundTrip` | code/machine/network.cc:75-76 | A header read from bytes is the header written to them. |
| `PostOffices.Posted` | code/network/post.cc:299-318 | Send fills in the sender and the length of the packet, takes the bytes the mail header says, and the mail meets what the receiver asserts about lengths. |
| `PostOffices.PacketRoundTrip` | code/network/post.cc:312-318 | What the receiver takes apart is what the sender put together: headers, payload bytes and length, whatever the padding. |
| `PostOffices.WireLayout` | code/network/post.cc:312-318 | Both headers and the data are on the wire at their places: destination, source and length, four bytes each, least significant first. |
| `PostOffices.StepKeeps` | code/machine/network.cc:60-103 | Each step of senders, wire, network input, worker and readers keeps the invariant: the semaphore's value plus a worker between P and Receive is one exactly if a packet is buffered. |
| `PostOffices.ReadsAreSent` | code/network/post.cc:190-216 | In every run the mails read from a box are in order a subsequence of those sent to it, unchanged. |
| `PostOffices.RunIsSafe` | code/network/post.cc:190-216 | In every run in which mails go to existing boxes only, no assertion fails, the buffered packet is not overwritten and the worker never finds the buffer empty. |
| `PostOffices.WorkAssertsIff` | code/network/post.cc:209-211 | In every state of the invariant in which the worker holds a mail, its assertions hold if and only if the box it is for exists. |
| `PostOffices.UnknownBoxStopsWorker` | code/network/post.cc:209-211 | Any mail for a box that does not exist passes the sender's assertions and, if not lost, fails the receiver's. |
| `PostOffices.NoPacketIsStranded` | code/network/post.cc:198-201 | While a packet is buffered the worker is awake. |
| `PostOffices.ReliableRun` | code/machine/network.cc:158-182 | If the wire loses nothing, every mail sent is read, in a box or on its way, in the order sent. |
| `PostOffices.WorkEffect` | code/network/post.cc:190-216 | The worker's steps: P takes the unit or sleeps, Receive empties the buffer, Put adds the mail at the end of its box and changes no other box. |
| `PostOffices.PollEffect` | code/machine/network.cc:60-86 | The poll takes the first packet off the wire and does V, exactly if the buffer is free. |
| `PostOffices.ReadEffect` | code/network/post.cc:120-140 | A reader gets the first mail of its box, and no other box changes. |
| `PostOffices.FourStepsDeliver` | code/network/post.cc:190-216 | Left alone, a packet at the front of the wire is in its box after one poll and three steps of the worker. |
| `PostOffices.LogsAreEvents` | code/network/post.cc:190-329 | The mails sent, of which the other theorems speak, are those of the calls of Send, in order; and every read has got a mail. |
| `PostOffices.NetworkInput.CallBack` | code/machine/network.cc:60-86 | A packet is taken off the wire exactly if none is buffered; otherwise the buffer keeps its bytes. |
| `PostOffices.NetworkInput.Receive` | code/machine/network.cc:93-103 | Header and bytes as buffered, and the buffer is free. |
| `Bitmaps.BitAfterUpdate` | code/lib/bitmap.cc:56-80 | Setting or clearing one bit of a word changes that bit and no other. |
| `Bitmaps.BitIsDigit` | code/lib/bitmap.cc:58-92 | Bit k of a word is its binary digit of weight 2 to the k. |
| `Bitmaps.UpdateIsArithmetic` | code/lib/bitmap.cc:56-80 | Setting a clear bit adds its power of two, clearing a set one subtracts it. |
| `Bitmaps.CountAfterSet` | code/lib/bitmap.cc:128-139 | Setting a clear bit takes one from the number of clear bits. |
| `Bitmaps.WordsRoundTrip` | code/filesys/pbitmap.cc:62-79 | The words written to a file and read back are the same words. |
| `Bitmaps.Bitmap.Mark` | code/lib/bitmap.cc:55-64 | Over 32-bit words, exactly the one bit is set. |
| `Bitmaps.Bitmap.Clear` | code/lib/bitmap.cc:72-80 | Exactly the one bit is cleared. |
| `Bitmaps.Bitmap.Test` | code/lib/bitmap.cc:89-99 | The bit. |
| `Bitmaps.Bitmap.FindAndSet` | code/lib/bitmap.cc:110-121 | The first clear bit, now set; -1 and no change exactly if there is none. |
| `Bitmaps.Bitmap.NumClear` | code/lib/bitmap.cc:128-139 | The number of clear bits. |
| `Disks.IntsRoundTrip` | code/filesys/filehdr.cc:83-100 | C integers laid out in bytes and read back are the same. |
| `Disks.DecodedLayout` | code/filesys/filehdr.cc:86-106 | Integer i of an array on disk is in bytes 4 i to 4 i + 3, least significant byte first. |
| `FileHeaders.HeaderRoundTrip` | code/filesys/filehdr.cc:83-100 | A header written to its sector and fetched is the same header. |
| `FileHeaders.HeaderLayout` | code/filesys/filehdr.h:60-62 | The number of bytes, the number of sectors and the table are at their places in the sector. |
| `FileHeaders.SectorsCover` | code/filesys/filehdr.cc:43-46 | The sectors of a file hold its bytes, and one less would not. |
| `FileHeaders.FileHeader.Allocate` | code/filesys/filehdr.cc:43-59 | False, and no bit changed, exactly if there are fewer clear bits than sectors needed; otherwise every FindAndSet finds one, and the distinct clear sectors of the header, and no others, are now set. |
| `FileHeaders.FileHeader.Deallocate` | code/filesys/filehdr.cc:67-74 | Exactly the header's sectors are cleared; if they were set the assertion holds. |
| `OpenFiles.ContentsFrame` | code/filesys/openfile.cc:115-183 | A file's bytes depend on its own sectors only. |
| `OpenFiles.ContentsAfterFlush` | code/filesys/openfile.cc:168-180 | Writing whole sectors patched in a buffer is assignment into the file's byte array. |
| `OpenFiles.OpenFile.ReadAt` | code/filesys/openfile.cc:114-142 | Returns the bytes asked for from the position on, all of them or up to the end of the file, for every alignment; none exactly if none are asked for or the position is at or past the end. |
| `OpenFiles.OpenFile.WriteAt` | code/filesys/openfile.cc:144-183 | Assigns the bytes from the position on, all of them or up to the end of the file, for every alignment; none exactly if there are none or the position is at or past the end; no other byte of the file and no sector of another file changes. |
| `OpenFiles.OpenFile.Read` | code/filesys/openfile.cc:73-79 | ReadAt at the seek position, which moves by the bytes read. |
| `OpenFiles.OpenFile.Write` | code/filesys/openfile.cc:81-87 | WriteAt at the seek position, which moves by the bytes written. |
| `OpenFiles.OpenFile.WriteThenRead` | code/filesys/openfile.cc:115-183 | A read after a write returns the bytes written. |
| `Directories.MatchIsKeyEquality` | code/filesys/directory.cc:89-97 | The comparison of a stored name with a given one is equality of their first nine characters, up to the end of string. |
| `Directories.CopyStoresKey` | code/filesys/directory.cc:128-145 | A stored name matches exactly the names with the same first nine characters. |
| `Directories.EntryRoundTrip` | code/filesys/directory.h:32-39 | A directory entry written as bytes and read back is the same. |
| `Directories.EntryLayout` | code/filesys/directory.h:32-40 | Flag, sector and name are at their places in the 20 bytes of an entry. |
| `Directories.TableRoundTrip` | code/filesys/directory.cc:62-80 | The directory table written to its file and fetched is the same table. |
| `Directories.Directory.FindIndex` | code/filesys/directory.cc:89-97 | The first entry in use with the name, or -1 exactly if there is none. |
| `Directories.Directory.Find` | code/filesys/directory.cc:107-115 | The header sector of that entry, or -1. |
| `Directories.Directory.Add` | code/filesys/directory.cc:128-145 | False, and no change, exactly if the name is there or the table full; otherwise one free entry holds name and sector, and names stay unique. |
| `Directories.Directory.Remove` | code/filesys/directory.cc:152-162 | False exactly if the name is not there; otherwise just that entry is free. |
| `Directories.FetchMap` | code/filesys/pbitmap.cc:38-66 | The bitmap holds the bits in the file. |
| `Directories.WriteMap` | code/filesys/pbitmap.cc:75-79 | The file holds the bitmap's bits, and no other sector changes. |
| `DiskImages.OwnershipAfterCreate` | code/filesys/filesys.cc:174-215 | The partition of the set bits among system and files survives the addition of a file on clear sectors. |
| `DiskImages.OwnershipAfterRemove` | code/filesys/filesys.cc:256-286 | It survives the removal of a file and its sectors. |
| `DiskImages.OtherFilesKept` | code/filesys/filesys.cc:174-286 | An operation on one name leaves what every other name stands for. |
| `DiskImages.CreatedFiles` | code/filesys/filesys.cc:174-215 | What Create writes keeps the disk in order, adds one file of the requested length and changes no other. |
| `DiskImages.RemovedFiles` | code/filesys/filesys.cc:256-286 | What Remove writes keeps the disk in order, and only that file is gone. |
| `DiskImages.FileSectorsAreMarked` | code/filesys/filehdr.cc:67-74 | The sectors of a file in the directory are set in the map, so Deallocate's assertion holds. |
| `DiskImages.WrittenInv` | code/filesys/openfile.cc:144-183 | Writing to a file keeps the disk in order and changes only that file. |
| `DiskImages.CreateRemoveRestores` | code/filesys/filesys.cc:174-286 | Create and then Remove of one name restores the free map bit for bit, and every file. |
| `DiskImages.SectorsAreConserved` | code/filesys/filesys.cc:81-286 | Clear bits, system sectors and sectors of files always add up to the size of the disk. |
| `DiskImages.FilesOnIs` | code/filesys/directory.cc:85-110 | The map of all files on a disk has exactly the names that are found, with their contents. |
| `DiskImages.RoomIs` | code/filesys/filesys.cc:174-215 | Clear sectors and free entries are functions of the files alone: the clear sectors are those that the files, with their headers, leave of the disk without the system's five. |
| `FileSystems.FormattedInv` | code/filesys/filesys.cc:81-148 | A disk with an empty directory and a map of just the system's sectors is in order and holds no file. |
| `FileSystems.AllocateMeta` | code/filesys/filesys.cc:84-106 | Formatting allocates disjoint sectors for map and directory; the assertions on the allocations hold. |
| `FileSystems.FormatDisk` | code/filesys/filesys.cc:84-148 | The formatted disk holds the two headers, an empty directory and a map of exactly the system's sectors. |
| `FileSystems.FileSystem.Format` | code/filesys/filesys.cc:81-148 | The file system object after formatting is valid and holds no file. |
| `FileSystems.FileSystem.Create` | code/filesys/filesys.cc:174-215 | False exactly if the name is taken, the directory full or there are too few clear sectors, and then no sector of the disk changes; otherwise the file is there and no other changed. |
| `FileSystems.FileSystem.Remove` | code/filesys/filesys.cc:256-286 | False, and no sector changed, exactly if there is no such file; otherwise just that file is gone. |
| `FileSystems.FileSystem.Open` | code/filesys/filesys.cc:226-242 | A file object for exactly the files that are there, with their contents. |
| `FileSystems.FileSystem.WriteFile` | code/filesys/openfile.cc:144-183 | Opening and writing changes that file's bytes as WriteAt says, and no other file. |
| `FileSystems.CreateDoes` | code/filesys/filesys.cc:174-215 | In terms of the files alone: Create succeeds if and only if the name is new, fewer than ten names are there and the files leave enough sectors, and then adds just that file. |
| `FileSystems.RemoveDoes` | code/filesys/filesys.cc:256-286 | Remove takes just that name out of the map, and succeeds if and only if it was there. |
| `FileSystems.WriteDoes` | code/filesys/openfile.cc:144-183 | A write changes just that file's bytes, and its result is the number of bytes within the file. |
| `FileSystems.FileSystem.Perform` | code/filesys/filesys.cc:174-286 | Each operation does to the map from names to bytes what it should, and its result is a function of that map. |
| `FileSystems.FileSystem.Execute` | code/filesys/filesys.cc:174-286 | Over any sequence of creations, removals and writes the disk refines a map from names to bytes, operation by operation, and every result, success or failure, follows from the map alone; the set bits of the map on disk stay exactly the disjoint union of sectors 0 and 1, the system's data sectors and each file's header and data sectors, and names stay unique. |
| `FileSystems.FormatAndExecute` | code/filesys/filesys.cc:81-286 | The same from formatting on, starting with no file. |
| `OpenHandles.LiveAfterCreate` | code/filesys/filesys.cc:174-215 | The header in an open file stays that of its file when another is created. |
| `OpenHandles.LiveAfterRemove` | code/filesys/filesys.cc:256-286 | So it does when another is removed. |
| `OpenHandles.LiveAfterWrite` | code/filesys/openfile.cc:144-183 | So it does when any file that is there is written. |
| `OpenHandles.Session.Perform` | code/filesys/filesys.cc:174-286 | With any number of files open: each creation, removal, opening, read and write does to the map from names to bytes, and returns, what it should. |
| `OpenHandles.RunSession` | code/filesys/filesys.cc:174-286 | So does every sequence of them that never writes through a handle whose file was removed, and the disk stays in order. |
| `StaleWrites.HarmlessIff` | code/filesys/openfile.cc:144-183 | Replacing a sector leaves the disk in order and every file as it is, whatever is written, if and only if its bit in the map is clear. |
| `StaleWrites.ClearIsHarmless` | code/filesys/openfile.cc:144-183 | Writing any number of clear sectors changes no file and nothing of the system's. |
| `StaleWrites.RemovedIsHarmless` | code/filesys/filesys.cc:256-286 | Right after a file was removed its sectors are harmless to write. |
| `StaleWrites.CreatedIsHarmed` | code/filesys/filesys.cc:174-215 | Once a new file has taken a sector, some write of it destroys something. |
| `OpenHandles.WriteStale` | code/filesys/openfile.cc:144-183 | A write through a handle whose file was removed changes nothing while the handle's sectors are clear. |
| `FileSystems.UntouchedFile` | code/filesys/filesys.cc:174-286 | Over a run, a file that no operation names keeps every byte. |
| `FileSystems.LengthIsFixed` | code/filesys/openfile.cc:144-183 | Over a run, a file that is not removed stays and keeps its length, whatever is written to it or created. |
| `PageLoss.KeepsIff` | code/userprog/exception.cc:195-305 | For all programs, files and pages: in every run with these programs, each access of the page finds what the last access left in it, if and only if the pages of all programs fit into memory, or the page is safe to write: every byte of it is in a segment whose place in the file is the byte's own address, within the file; no other page of an address space with the same file is written back there; and, for the first program, what Load copied is what a fault would fill in. |
| `PageLoss.KeepsUnwrittenIff` | code/userprog/exception.cc:195-305 | The same for runs in which the page itself is never written; there its bytes may come from any place in the file. |
| `PageSurvival.SafeIsKept` | code/userprog/exception.cc:195-305 | A safe page is found as it was left, whatever is loaded, read, written and evicted in between. |
| `PageSurvival.RoomyIsKept` | code/userprog/exception.cc:195-305 | So is any page if all pages fit into memory: then only frames never used are evicted. |
| `PageSurvival.UndisturbedInPlace` | code/userprog/exception.cc:227-281 | For a page mapped in place, no other page is written back there if and only if no other address space with the same file reaches as far as the page. |
| `PageLoss.LeftoverIsLost` | code/userprog/exception.cc:253-281 | A page with a byte in no segment, or past the file's end, can be lost: the byte stays as the frame's last page had it. |
| `PageLoss.OverwrittenIsLost` | code/userprog/exception.cc:227-234 | A page filled from where another page is written back can be lost, though it is clean. |
| `PageLoss.MisloadedIsLost` | code/userprog/addrspace.cc:185-260 | A page of the first program can be lost if Load copied another byte than a fault fills in. |
| `PageLoss.DisplacedIsLost` | code/userprog/exception.cc:227-281 | A page that is written can be lost if a byte of it is not filled from where it is written back. |
| `SamplePrograms.DataPageIsKept` | code/userprog/exception.cc:195-305 | With program files as the linker writes them: a page that is kept, data at its own address in a file that no other program has. |
| `SamplePrograms.SharedFileIsLost` | code/threads/main.cc:297-302 | The same page is lost if the program is loaded twice. |
| `SamplePrograms.CodePageIsLost` | code/userprog/exception.cc:227-281 | A page of code that is only read and lost, as the next page is written back over its place in the file. |
| `SamplePrograms.StackPageIsLost` | code/userprog/exception.cc:253-281 | A page of the stack that is lost. |
| `PageSurvival.ReadSafeIff` | code/userprog/addrspace.cc:185-260 | If the program's segments do not overlap on the page, the condition is on the places of the segments alone: every byte of the page is in the file, and no other page is written back there. |
| `PageSurvival.FirstAccessFinds` | code/userprog/exception.cc:253-281 | The first access of a safe page finds what the program's file had at the start of the run, whatever was written back to it since. |
| `PageReplacement.FilesStayIff` | code/userprog/exception.cc:227-234 | In every run with these programs all files stay as they are, if and only if the pages of all programs fit into memory. |
| `PageReplacement.HeaderIsLost` | code/userprog/addrspace.cc:119-123 | If they do not fit, every program with a page has a run after which its file has no valid header and cannot be loaded again. |
| `NoffFiles.NoffRoundTrip` | code/userprog/noff.h:12-28 | The header that Load reads is the one that was written, whatever follows it in the file. |
| `NoffFiles.NoffLayout` | code/userprog/noff.h:12-28 | The fields are at their places in the file: magic number, then address, file offset and size of code, data, read-only data and uninitialized data. |
| `NoffFiles.PagesCover` | code/userprog/addrspace.cc:126-138 | The pages of an address space hold the four segments and the stack, and one less would not. |
| `NoffFiles.LoadableIff` | code/userprog/addrspace.cc:119-146 | Which files can be loaded, in terms of the header's fields: the magic number, the sum of the sizes, and segments within the page table. |
| `NoffFiles.LinkedIsLoadable` | code/userprog/addrspace.cc:119-146 | A file with a header of the right magic number, at most 128 pages with the stack, and segments within the page table meets Load's assertions. |
| `PageSurvival.OnlyWritesChange` | code/machine/translate.cc:139-185 | At every step, what a page in a frame holds changes only by a write to that page, and then exactly in the bytes written, unless it is evicted. |
| `PageSurvival.StampCountsUses` | code/machine/translate.cc:258-263 | In every run the useStamp of a frame filled by a fault is the number of accesses to its page since then. |
| `PageSurvival.StampGrows` | code/machine/translate.cc:258-263 | Over any stretch of a run in which a page is not evicted, however it got its frame, its useStamp grows by exactly the number of accesses to it. |
| `VirtualMemory.VictimIff` | code/machine/machine.cc:222-232 | A frame is the one to evict if and only if its page was used less often, since it got the frame, than those in the frames before it, and not more often than any other. |
| `PageReplacement.LeastRecentIff` | code/machine/machine.cc:222-232 | Every fault of every run with these programs evicts a page that was accessed least recently, if and only if the pages of all programs fit into memory. |
| `PageReplacement.UnusedNever` | code/machine/machine.cc:222-232 | In every run a page in memory with useStamp zero has never been accessed. |
| `PageLoss.MostRecentIsEvicted` | code/machine/machine.cc:222-232 | If they do not fit, every page has a run with exactly these programs in which it is the page accessed last and the one that the next fault evicts. |
| `VirtualMemory.LoadAgreesWithFill` | code/userprog/addrspace.cc:106-262 | What Load copies into memory is what a page fault would fill in, for segments that do not overlap. |
| `VirtualMemory.SegmentsAreRead` | code/userprog/exception.cc:253-281 | The handler reads a byte from the first of code, data and read-only data that has the address, at the segment's place in the file; Load lets the last one count. |
| `PagedMemory.AccessFindsLast` | code/machine/translate.cc:85-185 | In any sequence of operations of the machine, an access of a page that is kept finds what the last access left. |
| `PagedMemory.FindsLastStore` | code/machine/translate.cc:85-185 | It finds in each byte what was last stored there, however often the page was accessed, evicted and filled again since. |
| `PagedMemory.ReadsBack` | code/machine/translate.cc:85-185 | A read of any address and size returns, for each byte on a page that is kept, what the last write to that byte in the address space stored, whatever was read, written, loaded and run in between, on the same page or elsewhere. |
| `PagedMemory.ReadsProgram` | code/machine/translate.cc:85-185 | For a byte that was never written, on a page that is safe to write, it returns what the program's file had at that address when the machine started. |
| `Paging.ResidentPagesDoNotShare` | code/userprog/exception.cc:287-305 | Two resident entries in any page tables with the same frame are the same entry. |
| `Paging.PhysIsInjective` | code/machine/translate.cc:193-267 | Different addresses of an address space translate to different places in memory. |
| `Paging.HandledIsFault` | code/userprog/exception.cc:195-305 | What the handler does to frame table, page tables, memory and files is the eviction and filling of the abstract machine. |
| `Paging.RecordedIsUse` | code/machine/translate.cc:258-263 | What a successful translation does to both tables is one use of the page. |
| `Paging.LoadedView` | code/userprog/addrspace.cc:106-262 | What loading does to the tables and to memory is the loading of the abstract machine. |
| `Paging.OutcomeIs` | code/machine/translate.cc:193-267 | Once the tables are consistent, only alignment and the size of the address space decide whether an access succeeds, a page fault included. |
| `Paging.ReachesIff` | code/userprog/addrspace.cc:126-138 | The addresses of a loaded program within reach are those on pages that begin below the end of segments and stack. |
| `Paging.Machine.FindFreeFrame` | code/machine/machine.cc:234-249 | The first frame without owner, claimed, or -1 exactly if there is none. |
| `Paging.Machine.FindFreeByLRU` | code/machine/machine.cc:222-232 | The first frame of least useStamp; the assertion holds. |
| `Paging.Machine.Translate` | code/machine/translate.cc:193-267 | The exception, changing nothing, or the physical address that the page table gives; then use and dirty bits are set, the frame's useStamp grows by one, and nothing else changes. |
| `Paging.Machine.WriteBackVictim` | code/userprog/exception.cc:227-234 | A dirty page is written to its file at its own address; nothing else changes. |
| `Paging.Machine.FillFrame` | code/userprog/exception.cc:253-281 | The frame gets the bytes of the page's segments; bytes in no segment, and all other frames, stay. |
| `Paging.Machine.Reassign` | code/userprog/exception.cc:287-305 | The frame's old entry loses it, the new one has it, and its useStamp is zero. |
| `Paging.Machine.HandlePageFault` | code/userprog/exception.cc:195-305 | No free frame exists, so the first frame of least useStamp is evicted; files, all of memory, and both tables change exactly as eviction and filling of that frame say. |
| `Paging.Machine.Access` | code/machine/translate.cc:86-101 | The retry after a page fault succeeds. |
| `Paging.Machine.LoadProgram` | code/userprog/addrspace.cc:106-262 | Fails if there is no such file and stops if its header does not meet the assertions, changing nothing; otherwise there is a new address space with the header's segments and just enough pages for them and the stack, with frames and its segments copied if it is the first. |
| `Paging.Machine.ReadMem` | code/machine/translate.cc:85-130 | Succeeds exactly for aligned addresses on pages of the address space, and returns the bytes of the page at that address; on failure nothing changes. |
| `Paging.Machine.WriteMem` | code/machine/translate.cc:139-185 | Succeeds exactly for aligned addresses on pages of the address space; the bytes are stored in the page at that address and the page is dirty; every other byte of the page, every other frame and, unless there was a fault, every file stays. |
| `Paging.Perform` | code/userprog/exception.cc:195-305 | Each operation of the machine is at most one step of the abstract machine, and a read returns what the page holds then. |
| `Paging.Execute` | code/userprog/exception.cc:195-305 | Over any sequence of loads, switches, reads and writes the machine refines the abstract one, operation by operation, results included; frame table and resident entries stay mutual inverses. |
| `Multiplication.AddPairs` | code/machine/mipssim.cc:801-804 | Adding with a carry found by comparison adds 64-bit numbers. |
| `Multiplication.NegatePair` | code/machine/mipssim.cc:818-824 | Complementing both words and adding one with carry negates a 64-bit number. |
| `Multiplication.PartialIsProduct` | code/machine/mipssim.cc:795-814 | After 32 rounds the sum is the product. |
| `Multiplication.EarlyExit` | code/machine/mipssim.cc:805-806 | So it is when the loop breaks after the last set bit. |
| `Multiplication.MultiplyWords` | code/machine/mipssim.cc:793-814 | The shift-and-add loop leaves the exact product of the words, negative a under arithmetic shift included. |
| `Multiplication.Mult` | code/machine/mipssim.cc:771-828 | hi and lo are the exact product modulo 2 to the 64, signed and unsigned, for all operands including the most negative. |
| `UnalignedAccess.BitsRoundTrip` | code/machine/mipssim.cc:312-418 | A word of 32 bits is its four bytes. |
| `UnalignedAccess.WordsAreExact` | code/machine/mipssim.cc:312-418 | Registers and memory with the same words are the same, so what is stated of words determines the machine's numbers. |
| `UnalignedAccess.MasksJoinLow` | code/machine/mipssim.cc:343-360 | The masks and shifts of LWL and SWR join the low bytes of one word and those of another. |
| `UnalignedAccess.MasksJoinHigh` | code/machine/mipssim.cc:396-415 | Those of LWR and SWL join high bytes. |
| `UnalignedAccess.PartsMakeWord` | code/machine/mipssim.cc:312-418 | The two joins make the little-endian word at the address, in either order. |
| `UnalignedAccess.LoadTwice` | code/machine/mipssim.cc:711-718 | Of two loads of one register the second sees the first, flushed in between or not. |
| `UnalignedAccess.UnalignedLoad` | code/machine/mipssim.cc:312-418 | LWR at an address and LWL three up load the word there, for every alignment and flushed in between or not; no other register is affected. |
| `UnalignedAccess.UnalignedLoadLeftFirst` | code/machine/mipssim.cc:312-418 | The same in the other order. |
| `UnalignedAccess.UnalignedStore` | code/machine/mipssim.cc:552-668 | SWR at an address and SWL three up write the four bytes from there and nothing else. |
| `UnalignedAccess.UnalignedStoreLeftFirst` | code/machine/mipssim.cc:552-668 | The same in the other order. |
| `UnalignedAccess.StoreLoadRoundTrip` | code/machine/mipssim.cc:312-668 | A word stored at any address is the word loaded from it. |
| `UnalignedAccess.StorePair` | code/machine/mipssim.cc:552-718 | As instructions, the two stores write the register; only if a load of it is on its way and SWR's read of memory is no page fault, SWR writes the old value's bytes and SWL the new value's. |
| `UnalignedAccess.Processor.Delayed` | code/machine/mipssim.cc:711-718 | On registers of 32 bits: the pending load arrives, the next one is pending, register 0 is zero. |
| `UnalignedAccess.Processor.Forwarded` | code/machine/mipssim.cc:336-342 | The register as it will be when the pending load has arrived. |
| `UnalignedAccess.Processor.LoadLeft` | code/machine/mipssim.cc:312-362 | LWL by masks and shifts on 32-bit registers and memory is LWL on bytes, with or without a page fault at its read of memory. |
| `UnalignedAccess.Processor.LoadRight` | code/machine/mipssim.cc:364-418 | LWR by masks and shifts on 32-bit registers and memory is LWR on bytes, with or without a page fault at its read of memory. |
| `UnalignedAccess.Processor.StoreLeft` | code/machine/mipssim.cc:552-609 | SWL by masks and shifts on 32-bit registers and memory is SWL on bytes, with or without a page fault at its read of memory. |
| `UnalignedAccess.Processor.StoreRight` | code/machine/mipssim.cc:611-668 | SWR by masks and shifts on 32-bit registers and memory is SWR on bytes, with or without a page fault at its read of memory. |
| `DiskTiming.DiffIsDistance` | code/machine/disk.cc:199-206 | The number of sectors to the target under rotation. |
| `DiskTiming.FirstArrival` | code/machine/disk.cc:246-246 | The target sector arrives under the head after that many sector times, and not before. |
| `DiskTiming.EndsAfterFirstPass` | code/machine/disk.cc:229-250 | Without the track buffer a request ends exactly one sector time after the target first arrives once the seek is over. |
| `DiskTiming.LatencyIs` | code/machine/disk.cc:177-252 | The whole computation: a read on the same track whose sector has gone by since the buffer was started takes exactly 500 ticks; any other request ends 500 ticks after the sector first arrives once the seek, of 500 ticks a track, is over. |
| `DiskTiming.TimeAfterIs` | code/machine/disk.cc:177-197 | The buffer is started at the first sector boundary at or after the end of the seek. |
| `DiskTiming.BufferHolds` | code/machine/disk.cc:236-244 | The track buffer serves exactly the reads on the current track whose sector will have gone by since the buffer was started when the sector now under the head has; it has by the end of the request. |
| `DiskTiming.ServedEarlyIff` | code/machine/disk.cc:236-244 | A read is served although its sector has not gone by at the time of the request exactly if the sector's first pass since then is under way. |
| `DiskTiming.ServedEarly` | code/machine/disk.cc:236-244 | An input on which that happens. |
| `DiskTiming.LatencyBounds` | code/machine/disk.cc:229-250 | Latency is at least RotationTime and at most 31999 ticks. |
| `DiskTiming.ShortestLatency` | code/machine/disk.cc:229-250 | The lower bound is reached. |
| `DiskTiming.LongestLatency` | code/machine/disk.cc:229-250 | The upper bound is reached. |
| `DiskTiming.Disk.UpdateLast` | code/machine/disk.cc:258-268 | The buffer is restarted at the end of the seek exactly if the track changes. |
| `DiskTiming.Disk.Request` | code/machine/disk.cc:113-151 | The ticks to the interrupt, within the bounds; the buffer is always started at a sector boundary and before the next request. |

## Left out

- Sockets, UNIX files, consoles, random numbers and the host: the disk is an array of sectors, the wire a queue of packets that may lose any of them, and the times of interrupts and losses are arbitrary.
- SWITCH, stacks, stack fenceposts and saved machine state: a switch is one step.
- System calls other than the page fault, the shell, kernel start-up: thin wrappers.
- Widths of counters: ticks, stamps, file positions and list lengths are unbounded integers; 32-bit wrap-around is modelled where the code depends on it (`Multiplication`, `UnalignedAccess`, `Bitmaps`, file headers).
- FileHeaders.FileHeader.Allocate: requires `fileSize <= MaxFileSize`, since the code writes past its table of sectors otherwise (code/filesys/filehdr.cc:46-52); negative sizes are allowed.
- FileSystems.FileSystem.Create: carries the same bound on the size, and so do Perform, Execute, FormatAndExecute, OpenHandles.Session.Perform and OpenHandles.RunSession.
- Paging.Machine.LoadProgram: a file shorter than a header, whose missing fields the code takes from uninitialized memory, and segments outside the page table, which it indexes without a check (code/userprog/addrspace.cc:119-260), stop the load here as a failed assertion does.
- Paging.Machine.Reassign: a pointer to a page table is the number of its address space, and the tables are sequences that the machine reassigns, so aliasing of page-table arrays is not modelled.
- Bytes of the last sector past the file's end: WriteAt does not preserve them (code/filesys/openfile.cc:168-180), and nothing here speaks of them.
- `~AddrSpace`: it frees frames through entries that may have been evicted (code/userprog/addrspace.cc:84-91), so it is not among the operations of `Paging.Execute`; without it no frame is free after the first program is loaded, which is why the branch of the fault handler that uses `vir` unset is proved unreachable.
- FILESYS_STUB: with UNIX files a page written back past the end of its file makes the file longer.
- The TLB and big-endian hosts: other configurations.
- UnalignedAccess.Processor.LoadLeft: addresses are within memory; that a page fault is handled and retried is in `Paging`, and exceptions that end the instruction are left out. The same holds for LoadRight, StoreLeft and StoreRight.
- OpenHandles.RunSession: writes through handles of removed files are excluded; `StaleWrites` says what they can do, a sector at a time.
- Interrupts.Interrupt.OneTick: the Yield that a handler asked for is reported to the caller instead of performed, as the scheduler is a separate module.
- HashTables.HashTable.Insert: the array of buckets is a sequence of references to lists, as its elements are never assigned after it is made; freeing memory is not modelled.
- Lists.List.Insert: the comparison is an argument of the method instead of a field of a derived class.
- PostOffices.StepKeeps: mailboxes are sequences with atomic Put and Get, justified by `SynchLists.FirstInFirstOut`; the sender's lock and semaphore follow the protocol of `SynchDisks`.
- Liveness beyond what is stated (`NoCallHangs`, `StuckOnlyWhenEmpty`, `RoundRobin`, `NoPacketIsStranded`): fairness of the scheduler among different priorities does not hold in the code.
- Instruction decoding and the other instructions, the debugger, Print and self-test routines: they would add easy members only.
