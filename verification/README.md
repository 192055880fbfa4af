# Kernel exercises in Dafny: shared lists, registers, message queues, wait queues and a safe

This project models the drivers and user programs of a set of Linux kernel exercises that have real shared state, and
proves what they promise over every run. `dafny verify dfyconfig.toml` checks all of it.

Two forms are used side by side.

- **Step systems.** Where callers interleave, a module has a function `Step` (in `SwitchRuns`, `WorldStep`) from a state and
  an action to the next state. A schedule is any sequence of actions of any threads. An action that is not possible where
  its thread stands (a lock that is taken, a grace period that is not over) changes nothing, so every sequence of actions is
  a run (`Runs.Run`), and a theorem about runs is a theorem about all interleavings. Touching memory that is not allocated
  sets `fault`.
- **Devices.** Each driver is also a class with the driver's own variables, changed in place by methods with the driver's
  own loops. Between two shared accesses of a method the environment (`env`, `wait`, `walk`, `swap`) may take any batch of steps of other
  threads. Most devices record the run they make in ghost fields (`tr`, `acts`), so that the theorems about runs become the
  `ensures` of the driver's methods; the others are tied to the specification functions of their step systems.

| file | what it models |
|---|---|
| `Options.dfy`, `Runs.dfy`, `Heaps.dfy` | optional values, runs of a step function, allocation: shared by the modules below |
| `RcuList.dfy`, `RcuListDevice.dfy` | RCU list: lock-free readers; updaters copy, replace, wait for a grace period, free |
| `RcuRegister.dfy`, `RwRegister.dfy` | one register, once behind RCU and once behind a reader-writer lock |
| `KuIpc.dfy`, `KuIpcDevice.dfy`, `KuIpcLib.dfy` | ten typed, bounded message queues, and the library with its ownership marks and retry loops |
| `BlockingFifo.dfy` | a list of messages with a separate counter, and readers that wait without the lock |
| `BlockCounter.dfy` | a counter with waiting consumers, with and without a timeout |
| `Switch.dfy`, `SwitchRuns.dfy`, `SwitchDevice.dfy` | debounced presses and echo distances, fanned out to subscribers |
| `StepMotor.dfy`, `Coffer.dfy`, `SafeRuns.dfy` | the motor's half-step sequences, the safe that uses switch, sensor and motor, and the safe on the runs of the switch driver |

`SwitchRuns.World`, `BlockingFifo.Sys` and `BlockCounter.Sys` carry a history (what was accepted, sent, consumed) that no
step looks at; the statements are about this history.

## Where the code does not do what it is meant to do

Each of these is modelled as written, and as minimally repaired. The exact guarantee of the code is proved next to that of
the repair.

- **assignment1/ku_ipc.c:112** charges `sizeof(msgsz)`, which is 4, and not `msgsz`. A queue can hold a volume of 232 where
  100 is meant (`Capacity`, `CapacityAttained`); one send overflows exactly under the condition of `OverflowsExactly`.
  Charging `msgsz` keeps 101, and 100 for sizes that cover the NUL; that condition is needed (`CoveringNeeded`).
- **assignment1/ku_ipc.c:63-83** answers 0 to a get with any flag but CREAT or CREAT|EXCL; the library then marks queue 0,
  which nobody counts (`OtherFlags`). Answering -1 keeps the counts right for all flags (`ReferenceCounts`).
- **assignment1/ku_ipc_lib.c:175,188** compute the returned size from the caller's buffer, which after a truncation counts
  bytes the buffer held before (`ReturnedSize`, `SizeTooLarge`). Looking at the copied bytes only repairs it
  (`ReturnedSizeRepaired`).
- **blocking_io/challenge4/ch4_mod_201711395.c:40-44** does not test the list again after the wait and ignores that a signal
  may have ended it. It is safe exactly for at most one reader that no signal can wake (`SafeExactly`); with the test
  repeated it is safe for any readers (`RepairedNeverFaults`).
- **blocking_io/exercise1/simple_block_1.c:37-40** takes a timeout, which returns 0, for success, and both counters are
  decremented without a second test. The bound 1 - N - T is exact (`CounterBound`, `BoundAttained`,
  `NonNegativeExactly`); the repairs give 1 - N and 0.
- **assignment2/src/app/coffer_app.c:55-65** leaves the distance of a closing press in its queue when it has not arrived by
  the time the press is taken; the next round then judges every press by the distance before it (`ClosingPress`,
  `StaleDistances`, `LaterRound`). Closing and opening the key after the bolt has moved, as lines 19-20 do at the start,
  makes the next round judge each press by its own distance, the sensor being idle then (`OpensExactly`).

## Model

| member | source | states |
|---|---|---|
| RcuList.InvAlways | synchronization/exercise3/simple_rculist.c:38-71 | in every state of every run the list is well linked, only the current updater's node is off it, readers stand where they safely can, and no step has touched freed memory |
| RcuList.StepRefines | synchronization/exercise3/simple_rculist.c:38-71 | every step of every thread keeps the invariant and is, on the abstract list, one atomic increment (at the publication) or nothing |
| RcuList.ReadLinearizes | synchronization/exercise3/simple_rculist.c:39-51 | the answer of a READ is what the list committed to for that id at some instant inside that READ's own section, whatever updates interleave |
| RcuList.ReadMissesOnlyAbsentIds | synchronization/exercise3/simple_rculist.c:42-50 | a READ says "not found" if and only if the id was never on the list |
| RcuList.IdsConstant | synchronization/exercise3/simple_rculist.c:53-66 | after any run the ids on the list and their order are those of the start |
| RcuList.NoLostUpdate | synchronization/exercise3/simple_rculist.c:53-66 | after any run the data of each id is 100 plus its completed updates, plus the one published and in progress, modulo the word size |
| RcuList.SafeReclamation | synchronization/exercise3/simple_rculist.c:61-63 | at the kfree the node is allocated and no reader stands on it; during the grace period only readers that synchronize_rcu waits for do |
| RcuList.NoLeak | synchronization/exercise3/simple_rculist.c:58-63 | live nodes are always five plus exactly one between kmalloc and kfree |
| RcuList.LiveNodes | synchronization/exercise3/simple_rculist.c:58-63 | the heap holds one node per id on the list plus the one in flight |
| RcuList.GracePeriodNeeded | synchronization/exercise3/simple_rculist.c:61-63 | without line 62 the next step of some reader touches freed memory: the run that shows it |
| RcuList.NodeImmutable | synchronization/exercise3/simple_rculist.c:58-61 | no step changes the id or the data of an allocated node, in-place updates included |
| RcuList.PublishSplices | synchronization/exercise3/simple_rculist.c:61 | list_replace_rcu changes one `next`, one `prev` and poisons the replaced node's `prev`, nothing else |
| RcuList.SplicedLinks | synchronization/exercise3/simple_rculist.c:61 | after those pointer writes the list is well linked with the copy in the place of the old node, and the old node still leads to the rest of the list |
| RcuList.PublishKeepsInv | synchronization/exercise3/simple_rculist.c:61 | replacing the node under any standing readers keeps the invariant and increments exactly the first pair with the id |
| RcuList.AllocKeepsInv | synchronization/exercise3/simple_rculist.c:58-60 | allocating and filling the copy keeps the invariant and is invisible on the list |
| RcuList.FreeKeepsInv | synchronization/exercise3/simple_rculist.c:63 | freeing the old node after the grace period keeps every reader's claim and the list |
| RcuList.QuietWriterStep | synchronization/exercise3/simple_rculist.c:55-70 | searching, the two ends of synchronize_rcu, the report and the unlock keep the invariant and the list |
| RcuList.ReaderStepKeepsInv | synchronization/exercise3/simple_rculist.c:40-50 | every load of a reader keeps the invariant for all threads and leaves the list alone |
| RcuList.NextOf | synchronization/exercise3/simple_rculist.c:42 | following `next`, even from a node that has just been unlinked, leads one place further on the current list |
| RcuList.LookupAt | synchronization/exercise3/simple_rculist.c:42-46 | looking an id up, and incrementing it, act on the first node that carries it |
| RcuList.LookupBump | synchronization/exercise3/simple_rculist.c:59-61 | an increment changes the answer for its own id by one and for no other, and no id or its place |
| RcuListDevice.Device.constructor | synchronization/exercise3/simple_rculist.c:104-112 | init builds the list (1,100) to (5,100), well linked, with nothing else allocated |
| RcuListDevice.Device.AddEntry | synchronization/exercise3/simple_rculist.c:108-111 | the i-th node allocated gets id i + 1 and data 100 and becomes the last of a well linked list |
| RcuListDevice.AddTailLinks | synchronization/exercise3/simple_rculist.c:111 | the pointer writes of list_add_tail_rcu append the node and keep every other node as it was |
| RcuListDevice.Device.Exit | synchronization/exercise3/simple_rculist.c:122-130 | the exit loop frees the nodes of the list in order, each once, and leaves nothing but the head |
| RcuListDevice.RemovedLinks | synchronization/exercise3/simple_rculist.c:124-128 | deleting and freeing the first node leaves the rest well linked and everything else allocated |
| RcuListDevice.DeleteFirstRemoves | synchronization/exercise3/simple_rculist.c:125-127 | what list_del_rcu and kfree change, address by address |
| RcuListDevice.Device.IoctlRead | synchronization/exercise3/simple_rculist.c:39-51 | under any interference READ terminates, touches no freed node, finds exactly the ids on the list, and answers what the list committed to inside its section |
| RcuListDevice.Device.Walk | synchronization/exercise3/simple_rculist.c:42-48 | the traversal ends, because each round moves one place down a list whose length never changes |
| RcuListDevice.Device.Visit | synchronization/exercise3/simple_rculist.c:42-46 | one round, preempted before each load, reports the data of a matching node or stands one place further |
| RcuListDevice.Device.LoadNext | synchronization/exercise3/simple_rculist.c:42 | loading `next` from the node at place i, current or replaced, leads to the current node at place i + 1 |
| RcuListDevice.StandingStays | synchronization/exercise3/simple_rculist.c:42-63 | a reader's place on the list survives any step of any other thread |
| RcuListDevice.OthersKeepLength | synchronization/exercise3/simple_rculist.c:53-66 | nobody changes the length of the list, and nobody but the holder of the lock changes the list |
| RcuListDevice.Device.IoctlUpdate | synchronization/exercise3/simple_rculist.c:52-71 | an UPDATE that gets the lock is one atomic increment of the first node with the id, and returns the new data once its grace period ends; if there is no such node nothing changes. It does not return only if others held the lock at every look, or some reader is still in a section that was open when it called synchronize_rcu; with the lock free and nobody reading it returns |
| RcuListDevice.Device.LockedUpdate | synchronization/exercise3/simple_rculist.c:53-70 | from lock to unlock the list changes by that one increment only, and the call is held up by nothing but readers inside when it called synchronize_rcu |
| RcuListDevice.Device.AwaitLock | synchronization/exercise3/simple_rculist.c:53 | the lock is got at the first look that finds it free; not at all only if it was taken at every look |
| RcuListDevice.Device.Search | synchronization/exercise3/simple_rculist.c:55-57 | the search under the lock ends at the first match or at the end of the list, and changes nothing |
| RcuListDevice.Device.CopyNode | synchronization/exercise3/simple_rculist.c:58-60 | the copy is made at an address that was not in use, and the list does not change |
| RcuListDevice.Device.ReplaceNode | synchronization/exercise3/simple_rculist.c:61 | replacing the node increments the first pair with the id and nothing else |
| RcuListDevice.Device.SynchronizeRcu | synchronization/exercise3/simple_rculist.c:62 | returns once every section that was open at the call has ended, and until then is held up by a reader that has been in its section since the call; the list stays as it is |
| RcuListDevice.GraceRun | synchronization/exercise3/simple_rculist.c:62 | over any run while the updater waits: a reader still waited for has been in its section throughout, one no longer waited for has left it |
| RcuListDevice.Device.Reclaim | synchronization/exercise3/simple_rculist.c:63-64 | frees the unlinked node safely and reports exactly the value the list now holds for the id |
| RcuRegister.StepRefines | synchronization/challenge9/simple_rcu/simple_rcu.c:32-55 | every step keeps the invariant, touches no freed object, and is one atomic register write or nothing |
| RcuRegister.AtomicRead | synchronization/challenge9/simple_rcu/simple_rcu.c:33-40 | the two reads of a section agree and both are the register's value at the instant the section dereferenced the pointer |
| RcuRegister.RegisterRefined | synchronization/challenge9/simple_rcu/simple_rcu.c:41-52 | after any run the register holds the last value stored, and a second object is allocated exactly while a write has one in flight |
| RcuRegister.StaleReadHappens | synchronization/challenge9/simple_rcu/simple_rcu.c:35-38 | the second read need not be current: a run in which it is not |
| RcuRegister.Device.constructor | synchronization/challenge9/simple_rcu/simple_rcu.c:85-87 | init leaves the register at 0 with one object allocated |
| RcuRegister.Device.IoctlRead | synchronization/challenge9/simple_rcu/simple_rcu.c:33-40 | under any interference both reads give the register's value when this call loaded the pointer, and the section is closed again |
| RcuRegister.Device.ReadTwice | synchronization/challenge9/simple_rcu/simple_rcu.c:35-38 | load, read, read, preempted before each, all on allocated memory and all inside one section |
| RcuRegister.Device.IoctlWrite | synchronization/challenge9/simple_rcu/simple_rcu.c:41-52 | once it has the lock the argument is stored by exactly one step of this call; when it returns only the current object is allocated. It does not return only if others held the lock at every look, or some reader is still in a section that was open at synchronize_rcu; with the lock free and nobody reading it returns |
| RcuRegister.Device.AwaitLock | synchronization/challenge9/simple_rcu/simple_rcu.c:42 | the lock is got at the first look that finds it free; not at all only if it was taken at every look |
| RcuRegister.Device.Swap | synchronization/challenge9/simple_rcu/simple_rcu.c:42-47 | the pointer assignment stores the argument, and the old object is remembered |
| RcuRegister.Device.SynchronizeRcu | synchronization/challenge9/simple_rcu/simple_rcu.c:49 | returns once every section that was open at the call has ended, and until then is held up by a reader that has been in its section since the call |
| RcuRegister.GraceRun | synchronization/challenge9/simple_rcu/simple_rcu.c:49 | over any run while the writer waits: a reader still waited for has been in its section throughout, one no longer waited for has left it |
| RcuRegister.Device.Reclaim | synchronization/challenge9/simple_rcu/simple_rcu.c:50-51 | frees the old object, which no reader can reach, and leaves only the current one |
| RwRegister.StepRefines | synchronization/challenge9/simple_rwlock/simple_rwlock.c:32-55 | every step keeps the invariant and is one atomic write or nothing, and no write happens while a reader is inside |
| RwRegister.CurrentRead | synchronization/challenge9/simple_rwlock/simple_rwlock.c:33-40 | the value does not change while any reader is inside, so both reads agree and are current from the lock to the unlock |
| RwRegister.RegisterRefined | synchronization/challenge9/simple_rwlock/simple_rwlock.c:41-51 | after any run the register holds the last value stored |
| RwRegister.Device.constructor | synchronization/challenge9/simple_rwlock/simple_rwlock.c:81-84 | init leaves the register at 0 and the lock free |
| RwRegister.Device.AwaitLock | synchronization/challenge9/simple_rwlock/simple_rwlock.c:34-42 | gives the lock to a reader when no writer has it and to a writer when nobody has, at the first look at which that is so |
| RwRegister.Device.IoctlRead | synchronization/challenge9/simple_rwlock/simple_rwlock.c:33-40 | both reads give the value that is still the register's at the unlock, and was at the call if the lock was free; it does not return only if a writer was inside at every look |
| RwRegister.Device.IoctlWrite | synchronization/challenge9/simple_rwlock/simple_rwlock.c:41-51 | once alone it leaves the argument in the register and only the new object allocated; it does not return only if somebody was inside at every look |
| KuIpc.GetThenClose | assignment1/ku_ipc.c:63-99 | a get is granted exactly for CREAT, and for CREAT with EXCL when a close would be refused; anything else changes nothing; a close undoes a granted get; other flags are answered with 0, or with -1 as repaired |
| KuIpc.SendAnswers | assignment1/ku_ipc.c:108-127 | a send is refused if and only if five messages are pending or their sizes sizeof(long) + strlen + 1 leave no room for an int (for msgsz as repaired); else it becomes the last pending message |
| KuIpc.FiveShortSends | assignment1/ku_ipc.c:108-127 | any five short sends to an empty queue are all accepted in order, and any sixth send is refused |
| KuIpc.ShortSends | assignment1/ku_ipc.c:108-127 | the same from a queue that already holds short messages |
| KuIpc.MsgSnd | assignment1/ku_ipc.c:101-131 | a refused send changes nothing; no send changes another key or a counter |
| KuIpc.ReceiveAnswers | assignment1/ku_ipc.c:138-160 | -1 if and only if no message of the type is pending; -2 if and only if the oldest of the type is longer than the room and may not be truncated |
| KuIpc.HasBits | assignment1/ku_ipc.c:143 | each flag bit is seen whatever the other bits of the flag word are |
| KuIpc.MsgRcv | assignment1/ku_ipc.c:133-165 | results -1 and -2 change neither the queues nor the caller's buffer; no receive changes another key or a counter |
| KuIpc.FirstOf | assignment1/ku_ipc.c:138-140 | the search stops at the first message of the type and at no other |
| KuIpc.StrLen | assignment1/ku_ipc.c:110 | strlen: the first NUL, or the whole text |
| KuIpc.StepConserves | assignment1/ku_ipc.c:101-165 | one operation of anyone: pending plus accepted is delivered plus pending, per key and type, in order |
| KuIpc.TypedFifo | assignment1/ku_ipc.c:101-165 | over every run, per key and type, what was pending followed by what was accepted is what was delivered followed by what is pending |
| KuIpc.OfTypeWithout | assignment1/ku_ipc.c:148-152 | taking a message out leaves the other types as they were, and its own type without its first |
| KuIpc.StepCount | assignment1/ku_ipc.c:108-127 | no operation, of any size and text, puts a sixth message in a queue |
| KuIpc.CountLimit | assignment1/ku_ipc.c:108-127 | over every run, without any condition on the sends, a queue holds at most 5 messages |
| KuIpc.StepVolume | assignment1/ku_ipc.c:108-127 | if a message counts for at most e more than it is charged, one operation keeps a queue at most e over the limit |
| KuIpc.VolumeLimit | assignment1/ku_ipc.c:108-127 | the same over every run, as written and as repaired, for every e |
| KuIpc.Capacity | assignment1/ku_ipc.c:108-127 | over every run: volume at most 232 as written for any sizes and any texts whose stored part has a NUL; with msgsz charged at most 101 for sizes that cover the type and 100 for sizes that cover the NUL |
| KuIpc.OverflowsExactly | assignment1/ku_ipc.c:112-117 | one send, of any size and text, takes a queue over 100 exactly when there is a free slot, room for an int, and no room for what is kept of the message |
| KuIpc.CapacityAttained | assignment1/ku_ipc.c:112-117 | two sends that cover their NUL reach the volume 232 |
| KuIpc.CoveringNeeded | assignment1/ku_ipc.c:120-125 | 101 is reached with msgsz charged, by a size that covers the type and not the NUL |
| KuIpc.StoredLength | assignment1/ku_ipc.c:120-122 | for any size the stored text is the sent text, cut at the size; the type is kept if the size covers it |
| KuIpc.EndToEnd | assignment1/ku_ipc.c:101-165 | over every run of every process the i-th successful receive of a type gets the i-th accepted send of it: byte for byte as far as both sizes reach, and with the library's size if they cover the NUL; the sends not received are exactly those pending |
| KuIpc.RoundTrip | assignment1/ku_ipc.c:120-152 | a text sent with its NUL and received with room, wherever it waits in the queue and with any flags, comes back byte for byte with size sizeof(long) + strlen + 1, and the next of its type is then first |
| KuIpc.CopiedArrives | assignment1/ku_ipc.c:149 | what any receive leaves in the caller's buffer, in terms of the message that was sent |
| KuIpc.Truncated | assignment1/ku_ipc.c:147-154 | with KU_MSG_NOERROR a message with no room gives its first bytes as they were sent, the buffer keeps the rest, and the message is gone from its type |
| KuIpc.RefusedThenReceived | assignment1/ku_ipc.c:143-146 | without it the library returns -1 and nothing changes; after any run that delivers no other of its type a receive with room gets the message whole |
| KuIpc.StaysFirst | assignment1/ku_ipc.c:138-157 | a pending message stays the first of its type through every run that delivers none of the type |
| KuIpc.FirstIsHead | assignment1/ku_ipc.c:138-140 | the search finds a message exactly if one of the type is pending, and finds the oldest |
| KuIpc.ReturnedSize | assignment1/ku_ipc_lib.c:175-188 | the size reported is within what was copied if and only if the message fitted, and is then the message's own |
| KuIpc.SizeTooLarge | assignment1/ku_ipc_lib.c:175-188 | a send and a truncated receive of 10 bytes into a buffer with old text, for which 136 is reported |
| KuIpc.ReturnedSizeRepaired | assignment1/ku_ipc_lib.c:175-188 | looking for the NUL in the copied bytes only, the size is that of the message or of the copied part, whatever the buffer held |
| KuIpcDevice.Device.constructor | assignment1/ku_ipc.c:222-224 | ten empty queues, ten zero counters |
| KuIpcDevice.Device.Msgget | assignment1/ku_ipc.c:63-83 | the code on the global arrays is the specified operation, as written and as repaired |
| KuIpcDevice.Device.Msgclose | assignment1/ku_ipc.c:85-99 | the code on the global arrays is the specified operation |
| KuIpcDevice.Device.Msgsnd | assignment1/ku_ipc.c:101-131 | the summing loop and the append are the specified send, as written and as repaired |
| KuIpcDevice.Device.Msgrcv | assignment1/ku_ipc.c:133-165 | the search loop takes exactly the first message of the type, or fails as specified, and fills the caller's buffer as specified |
| KuIpcDevice.Device.Perform | assignment1/ku_ipc.c:168-197 | every ioctl is one step of the runs that TypedFifo and Capacity are about |
| KuIpcDevice.Device.Exit | assignment1/ku_ipc.c:248-257 | the exit loops free every pending message once, queue by queue and in order |
| KuIpcDevice.PendingAt | assignment1/ku_ipc.c:248-257 | what is freed holds every message of every queue, each at a place of its own, and nothing else |
| KuIpcLib.ReferenceCounts | assignment1/ku_ipc_lib.c:42-99 | in every interleaving (of good flags as written, of any flags as repaired) the kernel's counter is the number of holders, an exclusive get is granted exactly when there is none, and a holder's close is never refused |
| KuIpcLib.StepKeepsInv | assignment1/ku_ipc_lib.c:42-99 | check, ioctl and marking of any process keep counter and holders equal for all ten queues |
| KuIpcLib.StepDelta | assignment1/ku_ipc_lib.c:42-99 | a step moves a counter exactly as it moves its process in or out of the holders |
| KuIpcLib.StartsBalanced | assignment1/ku_ipc_lib.c:40 | processes that have marked nothing hold nothing |
| KuIpcLib.OtherFlags | assignment1/ku_ipc.c:63-83 | any other flag marks queue 0 without counting it, and so breaks the balance exactly if the process did not hold queue 0 |
| KuIpcLib.Process.constructor | assignment1/ku_ipc_lib.c:40 | a process starts with no queue marked |
| KuIpcLib.Process.Msgget | assignment1/ku_ipc_lib.c:42-71 | a second get of a marked queue fails and changes nothing; a granted one marks the queue it returns |
| KuIpcLib.Process.Msgclose | assignment1/ku_ipc_lib.c:73-99 | closing an unmarked queue fails and changes nothing; a granted close unmarks it |
| KuIpcLib.Process.Msgsnd | assignment1/ku_ipc_lib.c:101-141 | a send succeeds at the first try that finds the queue not full, and is then the others' rounds followed by one accepted message; it is still retrying only if the queue was full at every try; NOWAIT never retries |
| KuIpcLib.Process.Msgrcv | assignment1/ku_ipc_lib.c:143-196 | retries exactly while no message of the type is pending; -1 at once for a pending one that does not fit, else the size computed from the buffer; it is still retrying only if none was pending at every try |
| BlockingFifo.FifoAndNoLostWakeup | blocking_io/challenge4/ch4_mod_201711395.c:36-81 | in every run, as written and as repaired: sent is received followed by the list, the counter is its length, and no reader sleeps while a message waits |
| BlockingFifo.StepKeepsInv | blocking_io/challenge4/ch4_mod_201711395.c:36-81 | the same, step by step |
| BlockingFifo.RepairedNeverFaults | blocking_io/challenge4/ch4_mod_201711395.c:40-44 | with the list tested again under the lock no run pops an empty list, for any readers and signals |
| BlockingFifo.OneReader | blocking_io/challenge4/ch4_mod_201711395.c:40-49 | one reader without signals still finds what it was woken for |
| BlockingFifo.TwoReadersFault | blocking_io/challenge4/ch4_mod_201711395.c:40-49 | any two readers can make the code pop an empty list |
| BlockingFifo.SignalFault | blocking_io/challenge4/ch4_mod_201711395.c:42-45 | so can one reader and one signal |
| BlockingFifo.SafeExactly | blocking_io/challenge4/ch4_mod_201711395.c:36-57 | the code never pops an empty list if and only if there is no reader, or one that signals cannot wake |
| BlockingFifo.Device.Write | blocking_io/challenge4/ch4_mod_201711395.c:59-81 | a text of 128 or more is refused with -1 and no change; any other is the next to be received, is counted, and leaves no reader asleep |
| BlockingFifo.Device.Read | blocking_io/challenge4/ch4_mod_201711395.c:36-57 | under any readers, writers and signals: what is got is the oldest message at an instant of this call; the list is found empty only if there were other readers or signals; it is still asleep only if all the others have run and there is nothing to read |
| BlockingFifo.Device.WaitEvent | blocking_io/challenge4/ch4_mod_201711395.c:42 | the wait goes on to the lock after a test of a positive counter or, as written, after a signal that its last round brought; it stays asleep only with an empty list |
| BlockingFifo.Device.ReadRepaired | blocking_io/challenge4/ch4_mod_201711395.c:36-57 | with the list looked at again under the lock the same holds, no interference ever makes it pop an empty list, and it returns without a message only for a signal |
| BlockCounter.CounterBound | blocking_io/exercise2/simple_block_2.c:24-60 | with at most N consumers past the test and non-negative adds: adds minus consumes, never below 1 - N - timeouts; 1 - N and 0 for the two repairs |
| BlockCounter.StepStaysAbove | blocking_io/exercise1/simple_block_1.c:24-57 | the inductive form of the bound: the counter less the consumers that have passed |
| BlockCounter.AllPass | blocking_io/exercise2/simple_block_2.c:27 | any number of consumers can pass the test on the same 1 |
| BlockCounter.AllDecrement | blocking_io/exercise2/simple_block_2.c:56-58 | and then all decrement |
| BlockCounter.BoundAttained | blocking_io/exercise1/simple_block_1.c:36-57 | the bound is reached for every number of consumers and of timeouts |
| BlockCounter.NonNegativeExactly | blocking_io/exercise1/simple_block_1.c:24-57 | the code keeps the counter non-negative if and only if there is one consumer and no timeout |
| BlockCounter.Balance | blocking_io/exercise2/simple_block_2.c:41-57 | in every run, whatever is added, the counter is adds minus completed consumes |
| BlockCounter.Device.WakeUp | blocking_io/exercise2/simple_block_2.c:39-52 | the run it makes is one step that adds the argument, then the others' steps; the value returned, read after the unlock, is adds minus consumes at that moment |
| BlockCounter.Device.Wq | blocking_io/exercise1/simple_block_1.c:24-57 | the run it makes, step by step, with any of the three waits and any interference: one decrement after a test of a positive counter or a timeout, none after a signal or while it waits; the value returned is adds minus consumes at the return |
| BlockCounter.Device.WaitEvent | blocking_io/exercise1/simple_block_1.c:25-42 | what ends each wait: a positive counter first, a signal or the timeout only if the last round brought it and the wait heeds it; still waiting only with no positive counter |
| SwitchDevice.Device.constructor | assignment2/src/driver/sensor/switch/switch.c:341-346 | ten closed keys with empty queues, the sensor idle, nothing recorded |
| SwitchDevice.Device.SwitchIsr | assignment2/src/driver/sensor/switch/switch.c:202-224 | the press will be accepted if and only if it is more than 20 jiffies after the last accepted one, and no later press overwrites it |
| SwitchDevice.Device.Spread | assignment2/src/driver/sensor/switch/switch.c:191-198 | the loop appends to every queue in use and to no other |
| SwitchDevice.Device.RunSwitchTasklet | assignment2/src/driver/sensor/switch/switch.c:150-182 | the log of accepted presses grows by the latest press exactly if that is more than 20 jiffies after the last one, and a measurement is triggered exactly if none is under way |
| SwitchDevice.Device.RunUltraTasklet | assignment2/src/driver/sensor/switch/switch.c:184-200 | pushes the latest measurement, once |
| Switch.MeasuresEcho | assignment2/src/driver/sensor/switch/switch.c:243-244 | the stored value is the echo time in whole centimetres at 58 microseconds each, for every echo an int can count; of a longer one the microseconds modulo 2 to the 32 |
| SwitchDevice.Device.UltrasonicIsr | assignment2/src/driver/sensor/switch/switch.c:226-253 | only a fall that ends a rise makes a measurement, it has its own trigger, rise and fall in the run, and its value is the centimetres between the two edges |
| SwitchDevice.Device.QueueGet | assignment2/src/driver/sensor/switch/switch.c:64-79 | a key can be opened once, and gets what is accepted and measured from then on |
| SwitchDevice.Device.QueueClose | assignment2/src/driver/sensor/switch/switch.c:81-108 | the two deletion loops empty both queues of the key and touch no other |
| SwitchDevice.Device.SwitchRecv | assignment2/src/driver/sensor/switch/switch.c:110-128 | an open key gets the presses accepted since it was opened, one by one and in order, then -1 |
| SwitchDevice.Device.UltrasonicRecv | assignment2/src/driver/sensor/switch/switch.c:130-148 | an open key gets the distances pushed since it was opened, one by one and in order, then -1 |
| SwitchRuns.InvAlways | assignment2/src/driver/sensor/switch/switch.c:150-253 | fan-out, debounce and order of measurements hold together in every state of every run |
| SwitchRuns.FanOutRefined | assignment2/src/driver/sensor/switch/switch.c:64-181 | for every open key, what it has received and what is pending is the log since it was opened, for presses and for distances; closed keys have empty queues |
| SwitchRuns.AcceptedApart | assignment2/src/driver/sensor/switch/switch.c:156-166 | any two accepted presses are more than 20 jiffies per place apart |
| SwitchRuns.TracedAlways | assignment2/src/driver/sensor/switch/switch.c:168-250 | in every state of every run, what the sensor is doing and all it has measured goes back to a trigger, the rise that answered it and the fall that followed |
| SwitchRuns.EveryMeasurementHasItsEcho | assignment2/src/driver/sensor/switch/switch.c:168-250 | every measurement comes from one trigger by an accepted press with the sensor idle, then a rise, then a fall, with nothing else in between, and its value is the whole centimetres, at 58 microseconds each, between the two edges |
| SwitchRuns.DistancesAccountedFor | assignment2/src/driver/sensor/switch/switch.c:156-253 | every distance pushed is the measurement of its own echo, triggered by its own accepted press, in order; presses without one are exactly those accepted during an echo, those overwritten, and those on their way |
| SwitchRuns.PairedByIndex | assignment2/src/driver/sensor/switch/switch.c:156-253 | if no press fell into an echo and no measurement was overwritten, the i-th distance is what the echo triggered by the i-th press measured |
| SwitchRuns.SerialIsUndisturbed | assignment2/src/driver/sensor/switch/switch.c:168-250 | if each echo and its tasklet finish before the next accepted press, that is so |
| SwitchRuns.OpenSinceOpening | assignment2/src/driver/sensor/switch/switch.c:64-108 | until it is closed, an opened key's logs start where the two logs ended when it was opened |
| SwitchRuns.QueuesPaired | assignment2/src/driver/sensor/switch/switch.c:64-253 | then a key gets the presses accepted since it was opened, and its i-th distance is that of its i-th press, or of the press before if it was opened during a measurement |
| SwitchRuns.QueuesAligned | assignment2/src/driver/sensor/switch/switch.c:64-253 | the two queues of a key that was opened while the sensor was idle are index-aligned, and at most one press is without its distance, exactly while a measurement is under way |
| SwitchRuns.StepFansOut | assignment2/src/driver/sensor/switch/switch.c:150-200 | no step breaks the relation between log and queues |
| SwitchRuns.StepPairs | assignment2/src/driver/sensor/switch/switch.c:156-253 | every step keeps measurements and pushes in the order of their presses, and every press accounted for |
| SwitchRuns.SensorStep | assignment2/src/driver/sensor/switch/switch.c:168-250 | a step arms the sensor, starts or ends an echo, or leaves it alone, and only an end makes a measurement |
| SwitchRuns.StepDebounces | assignment2/src/driver/sensor/switch/switch.c:156-166 | every step keeps neighbouring presses more than 20 jiffies apart |
| StepMotor.Motor.SetStep | assignment2/src/driver/actuator/step_motor/step_motor.c:35-40 | the four pins are those given |
| StepMotor.Motor.Open | assignment2/src/driver/actuator/step_motor/step_motor.c:42-56 | the nested loops hold, step i, exactly the coils next to phase i mod 8, and then turn all coils off |
| StepMotor.Motor.Close | assignment2/src/driver/actuator/step_motor/step_motor.c:58-72 | the backward loops hold, step i, exactly the coils next to phase 7 - i mod 8, and then turn all coils off |
| StepMotor.CloseReversesOpen | assignment2/src/driver/actuator/step_motor/step_motor.c:47-68 | for any number of cycles closing is opening backwards |
| StepMotor.TablesFitTheCoils | assignment2/src/driver/actuator/step_motor/step_motor.c:30-33 | column j of the four tables energises exactly the coils within one half-step of phase j, coil k standing at phase 2k |
| StepMotor.OneCoilAtATime | assignment2/src/driver/actuator/step_motor/step_motor.c:30-40 | neighbouring settings differ in exactly one coil, across cycles too, so the four separate pin writes never show a third setting |
| StepMotor.Opening | assignment2/src/driver/actuator/step_motor/step_motor.c:47-52 | k settings of the opening sequence turn a rotor at phase 0 by k - 1 half-steps |
| StepMotor.Closing | assignment2/src/driver/actuator/step_motor/step_motor.c:63-68 | k settings of the closing sequence turn a rotor at phase 7 back by k - 1 half-steps |
| StepMotor.OpenThenClose | assignment2/src/driver/actuator/step_motor/step_motor.c:42-72 | for n >= 1 cycles opening turns 8n - 1 half-steps and closing turns them back |
| Coffer.App.constructor | assignment2/src/app/coffer_app.c:9-14 | the safe starts closed with the bolt at 0 |
| Coffer.App.Receive | assignment2/src/app/coffer_app.c:29-30 | one poll, with anything arriving before each of its two receives |
| Coffer.App.Round | assignment2/src/app/coffer_app.c:26-46 | for any queues and any arrivals during the drain a round opens exactly when its first five polls give the password; it ends at the first poll without a press or after a sixth |
| Coffer.App.WaitForPress | assignment2/src/app/coffer_app.c:56-64 | polls until the poll that takes the first press, and takes nothing after it |
| Coffer.App.Turn | assignment2/src/app/coffer_app.c:22-65 | one pass of the loop moves flag and bolt together: at 1023 half-steps when open, at 0 when closed; and which polls it takes from the queues, as written and as repaired |
| Coffer.App.Run | assignment2/src/app/coffer_app.c:22-66 | the flag and the queues at every loop head of every run follow pass by pass, and at every head the bolt is where the flag says |
| Coffer.BoltOpens | assignment2/src/app/coffer_app.c:46-50 | after any history that left the bolt at 0, opening leaves it at 1023 |
| Coffer.BoltCloses | assignment2/src/app/coffer_app.c:59-63 | after any history that left it at 1023, closing leaves it at 0 |
| Coffer.PollsInOrder | assignment2/src/app/coffer_app.c:28-45 | whatever arrives meanwhile, each queue gives its values in order and loses none |
| Coffer.QuietRound | assignment2/src/app/coffer_app.c:28-46 | without arrivals a round takes min(presses, 6) presses, and opens exactly when there are at least five and the first five pairs are the password, a missing distance counting as near |
| Coffer.StaleRound | assignment2/src/app/coffer_app.c:28-46 | with the right presses a round opens exactly if the left-over distances followed by those typed begin with the password's pattern |
| Coffer.StaleDistances | assignment2/src/app/coffer_app.c:28-46 | for any password typed right and any left-over distances: it opens exactly if they show the beginning of the pattern and are neither one nor three |
| Coffer.ClosingPress | assignment2/src/app/coffer_app.c:55-65 | after a closing press a round typed right opens if and only if the poll that took the press took its distance too |
| SafeRuns.RoundJudges | assignment2/src/app/coffer_app.c:28-46 | on any run of the driver: which accepted presses, and the measured distances of which presses, a round judges |
| SafeRuns.OpensExactly | assignment2/src/app/coffer_app.c:19-50 | if the key was opened while the sensor was idle and nothing was taken since (the first round, and as repaired the first after every closing), the safe opens exactly if the next five presses are the password, each at the distance its own echo measured |
| SafeRuns.LaterRound | assignment2/src/app/coffer_app.c:22-66 | a later round as written judges each press by its own distance exactly if as many distances as presses were taken before, and otherwise by those of so many presses before |

## Left out

- Device plumbing: character devices, proc files, ioctl numbers, open and release handlers, `printk`, prompts, the speaker: no logic. Each ioctl is a direct call.
- Kernel primitives the repository does not define: `list_head` operations are the pointer writes they are documented to make in the RCU list and sequence operations elsewhere; `synchronize_rcu` returns once every section open at the call has ended; a lock is one variable. Allocation and user copies succeed. Memory is sequentially consistent.
- Sleeping or allocating while a spin lock is held, and real delays (`mdelay`, `udelay`, `sleep(8)`): not modelled; in the RCU writers other threads run during the grace period as they could on other processors.
- Clocks do not wrap: `jiffies` is unbounded, so `pre + 20` does not overflow. `queue_reference_counter`, `msg_count` and `my_data` are unbounded too; `data` of the RCU list wraps at the word size.
- Keys outside 0 to 9, message sizes outside 0 to `sizeof(struct msgbuf)`, and unknown commands: preconditions. ku_ipc.c:89 and switch.c:69,88 use the key as an index before they check its range.
- A stored text without a NUL: `strlen` would run past the buffer. The model's StrLen stops at the end of the text, and the volume bound of the code as written is stated for texts whose stored part has a NUL.
- Endless waiting: a call that waits (for a lock, a grace period, a message, a press) goes on for as long as the steps of the others that it is given, and then reports that it is still waiting, and for what; that some thread will at last act is not stated.
- RcuList.StepRefines: the writes of list_replace_rcu are one step, because readers follow `next` only and exactly one `next` changes; SplicedLinks states the writes themselves.
- simple_rcu_exit, simple_rwlock_exit, ch4_exit, switch_exit: the loops that matter are those of the RCU list's and the message queues' exits. Unloading with callers inside, and process exit without close, are not modelled.
- proc_ch4_show walks the list without the lock through the global `tmp`: not part of this model.
- BlockCounter.CounterBound: which waiter a wake-up picks (WQ_EX, exclusive waits) is not modelled; any waiter may test at any time, which covers every choice.
- SwitchDevice.Device.SwitchIsr: value and timestamp are written together; an interrupt between the tasklet's two reads of the slot is not modelled. The intermediate value 0 of `echo_valid_flag` is never seen outside the lock section and has no name here.
- SafeRuns.RoundJudges: the round takes what is pending when it starts, with no arrivals during the drain; arrivals during a drain are in Coffer.App.Round.
- StepMotor.OpenThenClose: the rotor follows only the settings that are held for a delay, to the nearest position of the phase.
- synchronization/exercise1, synchronization/exercise2, basic_kernel_functions/challenge3, sensor_and_actuator/exercise1: smaller duplicates of what is modelled; sensor_and_actuator/exercise3 and sensor_and_actuator/challenge10 are other versions of the step motor whose backward loops start past the end of their tables.
- LED, timer, speaker, sensor log, scheduling, affinity, hello, parameter and symbol-export exercises: thin wrappers with easy members only.
