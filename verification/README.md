# Verified models of the GHC run-time system

This project models the algorithms of the C run-time system under `kernel/rts` that carry the most state, and proves
their properties in Dafny. `dafny verify dfyconfig.toml` checks everything. Paths below are relative to the repository.

| file | models |
|---|---|
| `HandOff.dfy` | the capability hand-off as a transition system, one step per critical section |
| `Capability.dfy` | the same critical sections as methods of `Task` and `Cap` records with linked queues, proved against those steps |
| `Telling.dfy` | the same for spare workers and the tasks of bound threads that have been told of a free capability |
| `Machine.dfy` | all capabilities and tasks together: the records at any time are those of a state that some run reaches |
| `Freeze.dfy` | stripping a stack into AP_STACK closures and resuming it, as functions |
| `RaiseAsync.dfy` | raiseAsync on arrays of words and linked stack chunks |
| `Messages.dfy` | messages about threads blocked on black holes, blocking queues, updateThunk |
| `ThrowTo.dfy` | the locking of throwTo messages as a transition system |
| `WakeUps.dfy` | which of those messages waking a thread may spin on: threads, their queued messages and wake-ups on the way |
| `LinearHash.dfy` | linear hashing on sequences of chains, and what it means |
| `Hash.dfy` | the hash table of cells, chunks, segments and a free list |
| `FileLock.dfy` | reader and writer locks on files, over two such tables |
| `Apply.dfy` | eval/apply of byte-code functions and partial applications, against one-argument-at-a-time application |
| `Interpreter.dfy` | the same on the stack array in place |
| `Profiling.dfy` | the tree of cost-centre stacks |
| `RetainerSet.dfy` | hash-consed retainer sets |
| `Retainers.dfy`, `RetainerProfile.dfy` | the retainer traversal of a heap |
| `RetainerView.dfy`, `RetainerRecords.dfy` | the pool, the set pointers and the stack that the traversal works on |
| `RetainerWalk.dfy` | the order in which that traversal comes to the closures, and two heaps on which a retainer is lost |
| `TraverseStack.dfy`, `Children.dfy` | its segmented stack, and the enumeration of the children of a closure |
| `Ldv.dfy` | the lag, drag and void accounts of biographical profiles |
| `Arena.dfy` | arena allocation |
| `Base.dfy` | options, sums, sequences without repetition |

Code that updates things in place is modelled by classes whose methods are proved against functions; the properties are
lemmas about those functions and invariants of the classes. Protocols are transition systems whose runs interleave
steps arbitrarily.

Where code and comments differ, the model follows the code:

- `kernel/rts/Messages.c:197-203` says that a queue replaced by an IND will give way to the value. That holds for plain
  black holes. `kernel/rts/Threads.c:389-395` also wakes queues that a CAF_BLACKHOLE still points to:
  `Messages.Scheduler.UpdateThunk` says of every installed queue exactly when it dies, and `Messages.DeadInCaf` is a run
  where one does.
- A table with duplicate keys is a bag: the pair found first can change when its bucket is split
  (`LinearHash.InsertKeepsLookup` says exactly when, `LinearHash.DuplicateNotKept` is a run).
- `enterFunCCS` leaves the current stack alone when the function stack is directly below CCS_MAIN, which its comment does
  not mention (`Profiling.Tree.BelowMain` says when that is `++>`).
- `kernel/rts/RaiseAsync.c:235-247` argues that throwTo cannot deadlock, since a message is locked under another only if it
  is smaller. raiseAsync, called with a message locked (`kernel/rts/Messages.c:80-112`), also comes to tryWakeupThread, through
  updateThunk, and spins there on the message of any thread that has one in the queue woken. `ThrowTo.CircleFreeIff` says
  exactly when that is harmless.
- `kernel/rts/RaiseAsync.c:264-268` says that a MSG_TRY_WAKEUP for a thread woken already will be a no-op when it arrives.
  It wakes the thread if that is blocked on a black hole by then (`kernel/rts/Threads.c:285-288`), and leaves its message in
  the queue. `WakeUps.NoSpin` shows that without such wake-ups updating a thunk spins on no message, `WakeUps.StaleRuns`
  that with one it may spin on any, and `WakeUps.CircleFreeIffNoneStale` what this comes to for the locks.
- `kernel/rts/RetainerProfile.c:1652-1655` takes over the set of a parent that has one member more, since whenever the
  parent is visited, so is the closure. But the parent can be visited twice before the closure is, on a cycle or because a
  direct recursive call empties the stack, and then a retainer that the closure has from elsewhere is lost
  (`RetainerWalk.CycleLoses`, `RetainerWalk.PapLoses`). `Retainers.UpdatedExactIff` says which takeovers are harmless, and
  `RetainerProfile.Traversal.ComputeRetainerSet` that with those only no retainer is missing.
- `kernel/rts/ProfHeap.c:197` asserts that void_total stays strictly below not_used. They can be equal (`Ldv.AllVoid`);
  `Ldv.Censuses.BelowIff` says when.
- `arena_blocks` counts the blocks asked for on allocation but those received on freeing, so the assertion in arenaFree fails
  after a request that allocGroup rounds up to whole megablocks (`Arena.Drift`). `Arena.Counter.CountsIff` says for which
  requests the count is right.

## Model

| member | source | states |
|---|---|---|
| HandOff.NoLostHandOff | kernel/rts/Capability.c:443-516 | in every state of every run, a free capability whose returning queue is not empty has a returner in that queue that has been notified or is past its wait and about to re-check, whatever the interleaving of releases, prods, grabs, sends, migrations and spurious wake-ups |
| HandOff.ExclusiveOwnership | kernel/rts/Capability.c:589-764 | over every run, `running_task` of a capability is a task if and only if that task's own control state holds the capability, so no capability has two owners |
| HandOff.QueueDiscipline | kernel/rts/Capability.c:534-576 | over every run, no task is twice on a queue or on two queues of the machine (they share `task->next`), every queued task names the capability it is queued on, and the spare list never outgrows its bound |
| HandOff.StepKeeps | kernel/rts/Capability.c:416-832 | each critical section keeps ownership, queue membership, the notification of returners and the state of the queues |
| HandOff.PassRestores | kernel/rts/Capability.c:445-516 | releaseCapability_ re-establishes the hand-off of a capability that has just become free, through each of its branches |
| HandOff.RecheckNeverGivesNull | kernel/rts/Capability.c:647-740 | the queue heads that the two wait loops hand to giveCapabilityToTask are never NULL |
| HandOff.StepQueue | kernel/rts/Capability.c:188-214 | a step leaves a returning queue alone, appends the acting task, or takes the acting task from the head while granting it the capability |
| HandOff.FirstComeFirstServed | kernel/rts/Capability.c:631-660 | along any run, the tasks queued at the start followed by those that joined are, in order, those granted the capability through the queue followed by those still queued |
| HandOff.HandOffCompletes | kernel/rts/Capability.c:639-661 | from any reachable state with a free capability and returners, at most four steps of notified returners make the head of the queue the owner and pop exactly it |
| HandOff.TryGrabTakes | kernel/rts/Capability.c:820-832 | tryGrabCapability gets the capability exactly when it is free: `running_task` is then the task, which knows that it has it; otherwise nothing changes |
| HandOff.SecondTryFails | kernel/rts/Capability.c:820-832 | of two tries in a row by different tasks at most one succeeds: after the first the capability is taken, and the second changes nothing |
| HandOff.EnterTakesOrWaits | kernel/rts/Capability.c:627-637 | who comes to waitForReturnCapability has the capability if it was free, and otherwise waits as the last of the queue |
| HandOff.LetsGo | kernel/rts/Capability.c:454-576 | who releases or yields a capability had it and has it no more, and nobody else has it but a worker started for it; a yielding worker is the first spare one, or stopped when there are as many as allowed |
| HandOff.RunningLeftAlone | kernel/rts/Capability.c:802-810 | prodCapability and sendMessage leave a capability alone that a task has |
| HandOff.FlagCleared | kernel/rts/Capability.c:640-645 | after each wait, and before yielding, the flag is down, and the re-check is at the capability that the task names at that moment |
| Telling.PassTells | kernel/rts/Capability.c:445-516 | whom releaseCapability_ tells, branch by branch: the first returning task; nobody while a GC is pending; the task of the bound thread at the head of the run queue; a new worker; the first spare worker if there is work or always is set; or nobody |
| Telling.SpareNotForgotten | kernel/rts/Capability.c:497-511 | over any run in which the capability stays free, once a spare worker has been told, one of the spare workers has been told or is past its wait and about to look |
| Telling.BoundNotForgotten | kernel/rts/Capability.c:470-480 | likewise the task of a bound thread that waits in yieldCapability, until it is migrated to another capability |
| Telling.SpareCompletes | kernel/rts/Capability.c:708-749 | from there, two spare workers acting alone, at most four times, make the first one the owner, and pop exactly it |
| Telling.Looks | kernel/rts/Capability.c:708-749 | and a bound task that has been told becomes the owner in at most three steps of its own, even from the middle of a look at another capability |
| Capability.Cap.NewReturningTask | kernel/rts/Capability.c:188-199 | the linked list with head and tail pointers gains the task at its end and stays acyclic, the tail pointer being its last element |
| Capability.Cap.PopReturningTask | kernel/rts/Capability.c:202-214 | the first task leaves the linked list, with its link cleared; the tail pointer is NULL when the list is empty |
| Capability.Cap.EnterReturn | kernel/rts/Capability.c:627-637 | the updates of the record are the transition-system step of the same name: the task has the capability if that was free, and otherwise is the last of the returning queue |
| Capability.Cap.RecheckReturn | kernel/rts/Capability.c:647-660 | the same for the re-check; the loop is left exactly when the capability was free and has become the task's, which has left the head of the queue; a free one not taken has its first returner told |
| Capability.Cap.RecheckYield | kernel/rts/Capability.c:717-749 | the same for yieldCapability's re-check, for workers and bound tasks, with the spare list and its count |
| Capability.Cap.QueueWorker | kernel/rts/Capability.c:552-573 | the first half of releaseCapabilityAndQueueWorker: a yielding worker becomes the first spare worker, or is stopped exactly when there are as many as allowed |
| Capability.Cap.Pass | kernel/rts/Capability.c:454-516 | releaseCapability_: at most one task is told, the head of the returning queue if there is one, and the record is as the transition system says |
| Capability.Cap.Release | kernel/rts/Capability.c:519-532 | releaseCapability and releaseAndWakeupCapability, against the transition system, also where the task tells itself, as the task of the bound thread at the head of the run queue or as the first spare worker |
| Capability.Cap.FinishYield | kernel/rts/Capability.c:535-576 | releaseCapabilityAndQueueWorker as a whole: the task is queued or stopped, lets go and passes the capability on, in one critical section, which is one step of the transition system |
| Capability.Cap.Prod | kernel/rts/Capability.c:802-810 | prodCapability, and the tail of sendMessage: a free capability is passed on, a running one left alone |
| Capability.Cap.TryGrab | kernel/rts/Capability.c:820-832 | true is answered exactly when the capability was free; the task then has it, `running_task` and `task->cap` being set; after the answer false nothing has changed |
| Capability.Task.GiveCapability | kernel/rts/Capability.c:416-432 | only the sticky wakeup flag of the task is set |
| Capability.Task.Awake | kernel/rts/Capability.c:640-645 | the flag is down afterwards, and the task goes on, in its own wait loop, to re-check the capability it names at that moment |
| Machine.Machine.Done | kernel/rts/Capability.c:416-832 | a critical section on one capability leaves the records of all capabilities and tasks those of a state that a run of the transition system has reached, the run so far with this step at its end; the queues of the other capabilities, though linked by the same field, are not disturbed |
| Machine.Machine.EnterReturn | kernel/rts/Capability.c:627-637 | on the records of the whole machine, exactly this step is made: the history of steps gains it and the records are those of the state after it; the task has the capability or is the last of its queue |
| Machine.Machine.RecheckReturn | kernel/rts/Capability.c:647-660 | likewise; that the head of the queue is not NULL is derived from the history, not required |
| Machine.Machine.StartYield | kernel/rts/Capability.c:701-705 | likewise; the flag is down |
| Machine.Machine.Awake | kernel/rts/Capability.c:640-645 | likewise; the flag is down |
| Machine.Machine.RecheckYield | kernel/rts/Capability.c:717-749 | likewise |
| Machine.Machine.FinishYield | kernel/rts/Capability.c:535-576 | likewise, with a fresh worker among the tasks if one is started; the task has the capability because of the history |
| Machine.Machine.Release | kernel/rts/Capability.c:519-532 | likewise |
| Machine.Machine.Prod | kernel/rts/Capability.c:802-810 | likewise |
| Machine.Machine.TryGrab | kernel/rts/Capability.c:820-832 | likewise; the answer is true exactly when the capability was free, and then the task has it; otherwise no record has changed |
| Machine.Machine.NoLostHandOff | kernel/rts/Capability.c:443-516 | at all times a free capability whose linked returning queue is not empty has a task record on it whose wakeup flag is set or that is about to re-check |
| Machine.Machine.OneOwner | kernel/rts/Capability.c:589-764 | at all times `running_task` points to a task record if and only if that task's code has the capability |
| Machine.Machine.OneQueue | kernel/rts/Capability.c:188-214 | at all times no task record is on two queues, of one capability or of two |
| Machine.Machine.constructor | kernel/rts/Capability.c:302-333 | n free capabilities with empty queues, and an empty history |
| Freeze.FreezeResume | kernel/rts/RaiseAsync.c:704-713 | stripping a stack and then entering the deepest updated thunk follows the AP_STACK chain and puts the old closure back in front of the old stack words from the top down to that update frame, word for word, each update frame now naming the AP_STACK built for it; for any stack, chunked or not, and any heap |
| Freeze.ResumesLater | kernel/rts/RaiseAsync.c:704-713 | the same in any heap that keeps what stripping has left, whatever has been allocated since |
| Freeze.UpperIsTheStack | kernel/rts/RaiseAsync.c:773-902 | with the names the update frames had, those words are the top of the stack itself, chunked or not, less the underflow frames at the ends of its chunks: nothing else is changed by the round trip |
| Freeze.UpdateesIndirect | kernel/rts/RaiseAsync.c:811-860 | the thunk under each update frame becomes an indirection to the AP_STACK that the frame names on resumption, the deepest frame deciding if several update the same thunk |
| Freeze.OthersKept | kernel/rts/RaiseAsync.c:784-860 | no closure that existed and is named by no update frame above the end is written |
| Freeze.StripStopsAtCatch | kernel/rts/RaiseAsync.c:904-969 | what remains is a catch frame, with everything below it, above which there is none, or, with none at all or no exception, the thread is killed with the words below its stop frame |
| Freeze.StripThaws | kernel/rts/RaiseAsync.c:784-946 | the loop invariant behind the round trip: at every frame passed, the words passed so far come back through the chain built so far |
| RaiseAsync.FreezeUpdate | kernel/rts/RaiseAsync.c:811-860 | the copy loop fills a new AP_STACK with exactly the words above the frame, the thunk is made an indirection to it, and its address replaces the last word of the frame |
| RaiseAsync.FreezeUnderflow | kernel/rts/RaiseAsync.c:862-902 | the same at a chunk boundary, with an AP_STACK_NOUPD, whose address and an enter frame are pushed on the next chunk |
| RaiseAsync.RaiseAtCatch | kernel/rts/RaiseAsync.c:904-946 | the catch frame is left with a raise closure on top, ready to be entered, and asynchronous exceptions are blocked |
| RaiseAsync.Walk | kernel/rts/RaiseAsync.c:784-810 | the frame-by-frame walk over arrays and chunks does what the specification of stripping says, up to the frame that ends it |
| RaiseAsync.RaiseAsync | kernel/rts/RaiseAsync.c:728-1054 | the whole of raiseAsync without a stopping frame, on linked stack chunks in place: heap, stack chunk, words, what_next and flags are those of the specification Freeze.Strip of the flattened stack; and if an update frame was passed, entering the thunk of the deepest one in the final heap comes back to the closure that was about to be entered, the second word of the old stack, or to the dummy closure if the stack began with a frame, with the old words on top |
| Messages.Scheduler.SendMessage | kernel/rts/Messages.c:24-55 | the message becomes the head of the inbox, and is nowhere else |
| Messages.Scheduler.MessageBlackHole | kernel/rts/Messages.c:161-304 | a message on a black hole that names a thread t, or has a live queue that t owns, ends where t lives: in the inbox of t's capability, or at the head of the hole's queue, which is new, t's own and installed if the hole named t; the answer is 0 exactly when the hole has no owner; another round is needed exactly when the installed queue is dead; only queues whose owner lives on the calling capability are touched |
| Messages.Scheduler.BlackHoleOwner | kernel/rts/Messages.c:310-345 | the owner is the thread the hole names, or the owner of its live queue; none is found exactly when the hole is no black hole any more or has its value; the pointer has to be read again exactly when the installed queue is dead |
| Messages.Scheduler.ExecuteMessage | kernel/rts/Messages.c:114-130 | a message received is dropped if revoked, leads to a wake-up if the hole has no owner, goes round again if the installed queue is dead, and otherwise waits where the owner lives, as above; no other message moves |
| Messages.Scheduler.WakeBlockingQueue | kernel/rts/Threads.c:337-363 | each message of the queue is settled, and no other: its thread woken, or the message dropped when revoked; the queue dies |
| Messages.Scheduler.CheckBlockingQueues | kernel/rts/Threads.c:371-399 | of the thread's queues exactly those die that no plain black hole points to any more, with all their messages settled, and none of that kind is left alive |
| Messages.Scheduler.UpdateThunk | kernel/rts/Threads.c:408-452 | the thunk gets its value and no message is lost; in a collision (the thunk was a black hole neither claimed by the thread nor with a live queue of it) exactly the orphans of the thread die, and without one exactly the queue installed in the thunk; so a live queue installed in another hole dies if and only if the thread owns it, the hole is a CAF_BLACKHOLE or eager one, and there is a collision; and if the thread is the one that last claimed the thunk, no message for it waits in a queue made since, whoever has updated it meanwhile |
| Messages.Scheduler.ClaimEnds | kernel/rts/Threads.c:428-449 | from the invariant, kept by every step, that each queue made for a hole since a thread claimed it is that thread's, and while alive is installed or the hole has been updated: once that thread updates the hole, all these queues are dead and no message waits in them |
| Messages.Scheduler.NewQueue | kernel/rts/Messages.c:206-257 | a new queue holds the message, names its hole, is installed there and is the first on its owner's list |
| Messages.Scheduler.Revoke | kernel/rts/RaiseAsync.c:355-366 | overwriting the message wherever it is keeps the invariant, and it stays where it is |
| Messages.Scheduler.Migrate | kernel/rts/Threads.c:320-328 | moving a thread to another capability keeps the invariant |
| Messages.Scheduler.InOnePlace | kernel/rts/Messages.c:24-55 | in every state each message is in one inbox, once, or in one live queue, once, or in hand, or has led to a wake-up or been dropped; the membership goes both ways |
| Messages.Scheduler.InstalledNames | kernel/rts/Messages.c:262-272 | a queue installed in a black hole names that hole and is on the list of its owner, and is alive if the hole is a plain one (for the others see `Messages.Scheduler.UpdateThunk`) |
| Messages.DeadInCaf | kernel/rts/Threads.c:389-395 | a run in which that happens, so that the next thread to block there goes round the loop of messageBlackHole |
| ThrowTo.NoCycle | kernel/rts/RaiseAsync.c:235-264 | whatever the interleaving of throwTo, executeMessage, blocked exceptions, and wake-ups by raiseAsync under a lock, a circle of capabilities each spinning on a message that the next one holds locked has in it a thread waking another, on the way of an exception, whose message is not below the one held; for any number of capabilities and messages |
| ThrowTo.CircleFreeIff | kernel/rts/Threads.c:266-278 | so no run comes to such a circle if and only if every message that a wake-up on the way of an exception may spin on is below the one held; `w` is the relation of the messages held and wanted there, which the rows of WakeUps decide |
| ThrowTo.DeadlockRuns | kernel/rts/Threads.c:271-271 | for any two messages that break this, a run of two capabilities that ends in a circle |
| ThrowTo.SelfDeadlockRuns | kernel/rts/Threads.c:271-271 | and for a message that a wake-up may want while it is held, a run in which one capability waits for itself |
| WakeUps.UpdateWakes | kernel/rts/Threads.c:337-363 | updating a black hole empties its queue, and exactly those threads go on that have a message there and are on a black hole or have thrown an exception that is done |
| WakeUps.DeliverWakes | kernel/rts/Threads.c:260-289 | a wake-up lets its thread go on exactly if it is on a black hole or its exception is done |
| WakeUps.NobodyLeft | kernel/rts/Threads.c:337-363 | over any run, stale wake-ups or not, each thread on a black hole has its own message in the queue there, so that updating the hole leaves no thread blocked on it |
| WakeUps.NoSpin | kernel/rts/Threads.c:337-363 | as long as no MSG_TRY_WAKEUP arrives when its thread has gone on and is blocked on a black hole, every message in a queue is that of a thread blocked on it, so that updating a thunk spins on no throwTo message |
| WakeUps.StaleRuns | kernel/rts/Threads.c:285-288 | with one such wake-up, a run of eight steps of one thread, after which updating a black hole spins on the throwTo message of that thread, whichever message this is |
| WakeUps.CircleFreeIffNoneStale | kernel/rts/RaiseAsync.c:264-274 | so with the pairs of messages that the states of threads give rise to, no run of the locks comes to a circle if and only if no wake-up is stale |
| ThrowTo.Unblocked | kernel/rts/RaiseAsync.c:235-294 | under that condition every capability that spins does so, through a chain of others, for one that can take a step |
| ThrowTo.Descends | kernel/rts/RaiseAsync.c:249-264 | a capability that is waited for and itself spins wants a message below the one it holds; or it is re-waking the target, and waits for one that does not spin; or it is in an upward wake-up |
| ThrowTo.InvStep | kernel/rts/RaiseAsync.c:151-178 | each step keeps: a message is locked exactly when a capability holds it, by one only; MSG_NULL is never undone; who spins in throwToMsg wants a smaller message |
| ThrowTo.Enabled | kernel/rts/Messages.c:80-112 | a capability busy with messages can move or waits for another |
| LinearHash.ExpandSized | kernel/rts/Hash.c:133-187 | expand keeps mask1 = max-1, mask2 = 2*max-1, split < max, bcount = max+split and max a power of two, also where split comes round and the masks are shifted |
| LinearHash.ExpandPlaced | kernel/rts/Hash.c:133-187 | after expand every pair is in the bucket its hash selects with the new header |
| LinearHash.ExpandBag | kernel/rts/Hash.c:162-186 | expand neither loses nor doubles a pair |
| LinearHash.MaskIsMod | kernel/rts/Hash.c:60-76 | masking by a power of two less one is the remainder, so that bucket selection is arithmetic |
| LinearHash.GrownBucket | kernel/rts/Hash.c:60-76 | growing by a bucket changes the bucket only of hashes in the bucket split, and only to the new one |
| LinearHash.InsertRefines | kernel/rts/Hash.c:245-272 | insertion adds exactly one pair to the bag, through any expansion it causes |
| LinearHash.InsertLoad | kernel/rts/Hash.c:258-259 | the load stays below HLOAD*bcount after every insertion until the directory is full |
| LinearHash.LookupRefines | kernel/rts/Hash.c:189-207 | lookup returns data stored under the key, and fails exactly when there is none |
| LinearHash.LookupIsMap | kernel/rts/Hash.c:189-207 | where no key is stored twice, lookup finds a pair if and only if it is stored |
| LinearHash.LookupAfterInsert | kernel/rts/Hash.c:189-207 | the data just inserted is what lookup returns, whatever was stored before |
| LinearHash.RemoveRefines | kernel/rts/Hash.c:274-304 | removal takes out exactly the pair it reports, and reports none exactly when no pair has the key and the data asked for |
| LinearHash.ExpandKeepsLookup | kernel/rts/Hash.c:162-186 | what lookup returns for a key survives an expansion if and only if the directory is full, the key is not in the bucket split, or its first and last pairs there carry the same data |
| LinearHash.InsertKeepsLookup | kernel/rts/Hash.c:245-272 | what lookup returns for another key survives an insertion if and only if this does not reach the load at which a bucket is split, the directory is full, the key is not in the bucket split, or its first and last pairs there carry the same data |
| LinearHash.ExpandLookup | kernel/rts/Hash.c:162-186 | after a split, lookup returns the last pair of the old chain: chains come out reversed |
| LinearHash.DuplicateNotKept | kernel/rts/Hash.c:245-272 | so the most recent insertion does not always win: a run of insertions from the empty table after which a key that was inserted twice has its later data, and one more insertion, of another key, after which it has its earlier data |
| LinearHash.RunRepresents | kernel/rts/Hash.c:245-304 | over every run of insertions of absent keys and removals from a table that represents a map, it goes on representing the map with those operations applied |
| LinearHash.TableIsMap | kernel/rts/Hash.c:351-376 | from the empty table on, after any such run, lookup is map lookup and the load bound holds |
| Hash.HashTable.constructor | kernel/rts/Hash.c:351-376 | an empty table, in the first segment of the directory; buckets not yet in use hold nothing that is relied on |
| Hash.HashTable.Lookup | kernel/rts/Hash.c:189-207 | the walk down the linked chain is the specified lookup |
| Hash.HashTable.Insert | kernel/rts/Hash.c:245-272 | insertion on cells, chains, free list and directory is the specified insertion; a well-formed table stays well-formed |
| Hash.HashTable.Remove | kernel/rts/Hash.c:274-304 | the unlinking of the first matching cell, at the head or after another, is the specified removal; the cell goes to the free list; a well-formed table stays well-formed |
| Hash.HashTable.Expand | kernel/rts/Hash.c:133-187 | the loop that relinks a chain into two and the header updates are the specified expansion, allocating a segment exactly when one is needed |
| Hash.HashTable.AllocHashList | kernel/rts/Hash.c:215-236 | a cell comes off the free list, or is the first of a new chunk whose others make up the free list; no other cell moves |
| Hash.HashTable.FreeHashList | kernel/rts/Hash.c:238-243 | the cell becomes the head of the free list |
| Hash.HashTable.Conserved | kernel/rts/Hash.c:215-243 | the cells of the chunks are those in the chains and those on the free list: HCHUNK per chunk, kcount in the chains |
| Hash.HashTable.Free | kernel/rts/Hash.c:311-343 | freeDataFun is called once for each pair stored, each segment is freed once, the last first, and each chunk once |
| FileLock.FileLocks.LockFile | kernel/rts/FileLock.c:77-112 | the lock is given exactly when nobody holds the file or readers do and one more asks; then the file is held through one more descriptor and nothing else changes; a refusal changes nothing |
| FileLock.FileLocks.UnlockFile | kernel/rts/FileLock.c:114-144 | it fails exactly when the descriptor holds nothing, changing nothing; otherwise one lock held through the descriptor is held once less, and disappears with its last holder |
| FileLock.Lock.Decrement | kernel/rts/FileLock.c:129-141 | the count comes to 0 exactly with the last holder; till then it is -1 for one writer or the number of readers |
| FileLock.HeldThrough | kernel/rts/FileLock.c:119-127 | a descriptor not in the table holds no lock, and the lock found for one is one it holds |
| FileLock.FileLocks.constructor | kernel/rts/FileLock.c:52-59 | two empty tables |
| Apply.InterpreterCurries | kernel/rts/Interpreter.c:402-441 | for every stack and every byte-code function holding any arguments, if do_return and do_apply together come to run it, it is on the arguments that giving it those on the stack one at a time would run it on, in the same order, with the same updates made and the same frames left; if they do not, the closure returned or handed to the scheduler, with the stack under it, stands for what is still to be done, and this is nothing but returning to the frame on top, unless the stack check for unpacking a PAP has failed |
| Apply.RunsIff | kernel/rts/Interpreter.c:402-441 | on a stack within its limit the function runs exactly when the reference runs it, unless the closure returned in the first place is a PAP that cannot be unpacked over the first frame that is no update |
| Apply.OverflowIff | kernel/rts/Interpreter.c:567-575 | the stack check fails exactly then: never for a PAP built on the way, since what a PAP gains the stack has lost |
| Apply.StepKeeps | kernel/rts/Interpreter.c:554-675 | one application of a BCO or a PAP, with fewer, as many or more arguments than the arity: a function runs with exactly its arity of arguments, a PAP built keeps arity > 0 and arity plus arguments held equal to that of its function; going to the scheduler consumes nothing and happens exactly when the stack check for unpacking a PAP fails |
| Apply.ApUpdatesItself | kernel/rts/Interpreter.c:318-349 | an AP is run on its payload on top of an update frame for the AP itself, on top of what was there |
| Apply.ValueEvaluated | kernel/rts/Interpreter.c:288-312 | evaluating a value that is no byte-code function, through any chain of indirections: each update frame on top is updated with the value itself, and the value itself goes to the frame below: it is returned to an interpreted continuation, and left for the scheduler to enter on anything else, an apply frame included |
| Apply.FunctionEvaluated | kernel/rts/Interpreter.c:304-321 | evaluating a byte-code function that holds some arguments, through any chain of indirections, agrees with one-at-a-time application as `Apply.InterpreterCurries` states it |
| Apply.OthersEvaluated | kernel/rts/Interpreter.c:322-376 | an unknown closure is left for the scheduler to enter; an AP is run on its payload over an update frame for itself, or left to the scheduler when there is no room; nothing is updated |
| Apply.IndirectionsEvaluated | kernel/rts/Interpreter.c:288-294 | evaluating a closure is evaluating what its indirections lead to |
| Apply.ValueReturned | kernel/rts/Interpreter.c:379-486 | the same for do_return alone |
| Interpreter.Stack.Apply | kernel/rts/Interpreter.c:554-675 | do_apply on the stack array in place, word for word as specified |
| Interpreter.Stack.Shuffle | kernel/rts/Interpreter.c:596-606 | the loop that moves the arguments one word up, with the smaller frame put in the gap |
| Interpreter.Stack.NewPap | kernel/rts/Interpreter.c:617-635 | the new PAP holds what the old one held, then the arguments of the frame, which is popped |
| Interpreter.Stack.Return | kernel/rts/Interpreter.c:379-486 | do_return: apply and update frames are processed until a function runs or the value goes elsewhere, as specified, with the same updates in the same order |
| Interpreter.Stack.Evaluate | kernel/rts/Interpreter.c:270-376 | eval on the stack array in place, with the outcome and the updates that the rows on evaluation above are about |
| Interpreter.Stack.Slide | kernel/rts/Interpreter.c:1079-1089 | bci_SLIDE: a_1..a_n, b_1..b_by, s becomes a_1..a_n, s, though source and destination overlap |
| Profiling.PushTruncates | kernel/rts/Profiling.c:503-568 | pushing a centre that is on the stack cuts the stack back to it |
| Profiling.Tree.PushCostCentre | kernel/rts/Profiling.c:503-568 | from the memo, a back edge or a new node, the node returned is the one that denotes the truncating push, and the tree stays canonical |
| Profiling.Tree.Canonical | kernel/rts/Profiling.c:503-568 | distinct nodes denote distinct stacks |
| Profiling.Tree.StackLength | kernel/rts/Profiling.c:584-630 | the depth of a node is the length of its stack less one |
| Profiling.Tree.CheckLoop | kernel/rts/Profiling.c:572-580 | the nearest node at or above with the centre, none exactly when the centre is not on the stack |
| Profiling.IsInIndexTable | kernel/rts/Profiling.c:633-645 | the search of the index table finds the first entry for the centre |
| Profiling.Tree.ActualPush | kernel/rts/Profiling.c:584-630 | a new node for a centre not on the stack, memoised by its parent, with its depth and root |
| Profiling.Tree.EnterFunEqualStacks | kernel/rts/Profiling.c:326-337 | for stacks equally deep, what is pushed is the function stack without the longest common prefix; the recursion ends at a shared ancestor |
| Profiling.Tree.EnterFunCurShorter | kernel/rts/Profiling.c:344-355 | the same when the function stack is deeper |
| Profiling.Tree.EnterFunCCS | kernel/rts/Profiling.c:357-403 | for stacks with the same root the new current stack is `ccs ++> ccsfn` in all three cases of depth; with different roots, what appendCCS gives; for a function stack directly below CCS_MAIN, no change |
| Profiling.Tree.AppendCCS | kernel/rts/Profiling.c:484-499 | what is pushed is the part of the function stack above its root, above its last CAF, or above the current stack |
| Profiling.AboveHighestStop | kernel/rts/Profiling.c:484-499 | what appendCCS pushes is the part of the function stack above the highest place where it is at its root, at a CAF, or the same as the current stack |
| Profiling.Tree.BelowMain | kernel/rts/Profiling.c:366-369 | leaving the current stack alone for a function stack directly below CCS_MAIN is `++>` if and only if its centre is the current one, or the second of the current stack |
| Profiling.Tree.RootIsShared | kernel/rts/Profiling.c:331-337 | the root is among the ancestors, so the recursion stops at the latest there |
| Profiling.Tree.PrefixRoot | kernel/rts/Profiling.c:374-380 | a stack other than CCS_MAIN that another extends has the same root |
| Profiling.Tree.DifferentRoots | kernel/rts/Profiling.c:374-380 | for stacks with different roots, case 3 is `++>` if and only if what appendCCS leaves out of the function stack, its centres up to the last CAF, is nothing or is spare |
| Profiling.SpareIff | kernel/rts/Profiling.c:484-499 | what is left out is spare, that is, pushing it before the rest makes no difference, if and only if the lowest centre of the current stack among all that is to be pushed is one of the rest; or is one of those left out, and the current stack goes on above it as those left out do, and then ends or goes on with the first of the rest |
| Profiling.PushAllIs | kernel/rts/Profiling.c:503-568 | pushing a stack cuts the current one above its lowest centre that is pushed, and puts on top what is pushed after that centre; with no such centre, everything is put on top |
| Profiling.Tree.OnlyMain | kernel/rts/Profiling.c:374-380 | stacks with different roots have only CCS_MAIN in common, so without CAFs case 3 is `++>` too |
| Profiling.Tree.constructor | kernel/rts/Profiling.c:196-212 | the stacks registered at start-up are children of CCS_MAIN and roots of their own |
| RetainerSets.Pool.Singleton | kernel/rts/RetainerSet.c:106-128 | the only set with the single element, found or made |
| RetainerSets.Pool.AddElement | kernel/rts/RetainerSet.c:140-215 | the only set with the one element more, found or made, or rs_MANY exactly at the size limit; stored sets stay |
| RetainerSets.Pool.IsMember | kernel/rts/RetainerSet.h:132-158 | linear or binary, the search decides membership; rs_MANY has every member |
| RetainerSets.Pool.EqualSets | kernel/rts/RetainerSet.h:181-193 | two stored sets are the same object if and only if they have the same members, in whatever order these were added |
| RetainerSets.HashKeyInsert | kernel/rts/RetainerSet.h:194-195 | the key of a set is the sum of its members modulo the word size, wherever an element is put in |
| RetainerSets.SameMembers | kernel/rts/RetainerSet.c:161-166 | an increasing sequence is determined by its members |
| RetainerSets.EqualsInserted | kernel/rts/RetainerSet.c:169-193 | the three-part comparison holds exactly when the stored set is the old one with the retainer inserted at its place |
| RetainerSets.Place | kernel/rts/RetainerSet.c:161-166 | the number of members less than the retainer |
| RetainerView.Associate | kernel/rts/RetainerProfile.c:1624-1662 | what retainClosure does with pointers to the sets of a closure and its parent, NULL and rs_MANY among them, and with the pool, is `Retainers.Updated` of the sets they stand for |
| RetainerView.AddElement | kernel/rts/RetainerSet.c:140-215 | adding an element to a stored set, or to rs_MANY, is adding it to the set it stands for, up to the size limit |
| RetainerView.NumIs | kernel/rts/RetainerProfile.c:1651-1658 | `num` is the number of members, and 0 for rs_MANY, so that the shortcut compares sizes |
| RetainerProfile.Traversal.ComputeRetainerSet | kernel/rts/RetainerProfile.c:1773-1790 | for any heap, cyclic or not, on set pointers, the pool, the segmented stack and positions in closures: the traversal ends; every closure reached from the roots has a set; every retainer in a set reaches the closure along a path with no other retainer on it; a closure has rs_MANY only if more than maxRetainerSetSize retainers reach it so; every retainer that a closure accepts on its first visit or finds new and passes on has visited each of its children; if each set taken over was the one that adding the retainer would have made, every retainer that reaches a closure so, along closures visited, is in its set, or the set is rs_MANY; and this is so on every heap without cycles whose closures have no children visited by direct recursive calls; no closure has its children gone through more than maxRetainerSetSize+1 times |
| RetainerProfile.Traversal.RetainClosure | kernel/rts/RetainerProfile.c:1482-1740 | sets only grow, the stack is left at its boundary, and what was to be visited has been, a set that has grown being carried on to the children; the records stand for these sets, stack and boundary throughout; termination by how often sets can still grow |
| RetainerProfile.Traversal.Visit | kernel/rts/RetainerProfile.c:1617-1670 | the closure's set changes only by growing, and its children are gone through only if it grew |
| RetainerProfile.Traversal.RetainStack | kernel/rts/RetainerProfile.c:1273-1296 | the virtual stack of a nested call leaves the traverse stack as it was, and its boundary pointer means the same depth although block groups have been added |
| RetainerProfile.Traversal.Pop | kernel/rts/RetainerProfile.c:764-950 | the next child of the topmost entry above the boundary, entries without any being dropped |
| RetainerProfile.Traversal.Push | kernel/rts/RetainerProfile.c:431-659 | the first child, and an entry for the others |
| RetainerRecords.Records.Associate | kernel/rts/RetainerProfile.c:1617-1670 | the set pointer that a closure is given stands for the set `Retainers.Updated` says, and whether the children are next is decided as on values |
| RetainerRecords.Records.NextChild | kernel/rts/RetainerProfile.c:764-950 | one round of pop on the entry on top, a closure and a position in it, is the removal of the first of the children still to come, and of the entry with the last one where the layout fixes their number |
| RetainerRecords.Records.Push | kernel/rts/RetainerProfile.c:431-659 | push gives the first child and puts an entry on the stack that stands for the others, in an old or a new block group |
| RetainerRecords.Records.Mark | kernel/rts/RetainerProfile.c:1293-1294 | the boundary pointer is set to the present depth |
| RetainerRecords.Records.constructor | kernel/rts/RetainerProfile.c:235-247 | no closure has a set, and the stack and the pool are empty |
| RetainerProfile.Traversal.AllReached | kernel/rts/RetainerProfile.c:1773-1790 | with an empty stack the closures visited are closed under pointers, so contain all those reached |
| RetainerProfile.Traversal.AllCarried | kernel/rts/RetainerProfile.c:1632-1727 | at the end every retainer with which a closure has been gone through, its own if it is a retainer, has visited each of the children |
| RetainerProfile.Traversal.AllFound | kernel/rts/RetainerProfile.c:1617-1740 | so each retainer that reaches a closure along closures visited is in its set, if no set taken over was another than adding would have made |
| Retainers.UpdatedGrows | kernel/rts/RetainerProfile.c:1632-1662 | a new set, from the closure's own or taken over from the parent, is larger than the old one, or unchanged when r is a member |
| Retainers.UpdatedExactIff | kernel/rts/RetainerProfile.c:1651-1662 | a visit adds the retainer to the closure's set, and nothing else, and loses nothing, if and only if the set taken over, if one is, is the old one with the retainer added |
| RetainerWalk.PapLoses | kernel/rts/RetainerProfile.c:1705-1710 | a walk over a heap of seven closures without cycles, one a PAP with two children, after which a retainer is missing from a set: the call for the first child empties the stack before the second is visited |
| RetainerWalk.CycleLoses | kernel/rts/RetainerProfile.c:1652-1658 | the same on a heap of five closures with a cycle and no such calls |
| Retainers.UpdatedMeans | kernel/rts/RetainerProfile.c:1632-1662 | if the sets of parent and closure mean what they say, so does the new set, whether made, taken over through the shortcut or rs_MANY |
| Retainers.MeansNext | kernel/rts/RetainerProfile.c:1651-1658 | a set taken over from a parent that is not a retainer means the same of the closure |
| Retainers.RetainsNext | kernel/rts/RetainerProfile.c:1624-1628 | one more pointer from a closure that is not a retainer extends the path |
| Retainers.ReachedVisited | kernel/rts/RetainerProfile.c:1746-1766 | a set of closures closed under pointers contains what its members reach |
| Retainers.PotentialFalls | kernel/rts/RetainerSet.c:140-157 | the measure of termination falls when a set grows |
| TraverseStack.Stack.Push | kernel/rts/RetainerProfile.c:620-659 | across block groups, old or new, push is push on one sequence |
| TraverseStack.Stack.PopOff | kernel/rts/RetainerProfile.c:721-745 | popOff is pop on that sequence |
| TraverseStack.Stack.PopOffReal | kernel/rts/RetainerProfile.c:674-719 | the last entry of a group: the stack goes back to the group before, or stays in the first, and is one entry less |
| TraverseStack.Stack.IsOnBoundary | kernel/rts/RetainerProfile.c:291-295 | the pointers are equal if and only if the stack is as deep as when the boundary was set, whatever groups were switched or added between |
| TraverseStack.Stack.Mark | kernel/rts/RetainerProfile.c:1293-1294 | a boundary taken is one for the present depth |
| TraverseStack.Stack.MarkKept | kernel/rts/RetainerProfile.c:1293-1294 | and stays one while groups are added |
| TraverseStack.Stack.ReturnToOldStack | kernel/rts/RetainerProfile.c:222-230 | the previous group, full, is current again |
| TraverseStack.Stack.IsEmpty | kernel/rts/RetainerProfile.c:264-268 | the test holds exactly when the sequence is empty |
| TraverseStack.Stack.constructor | kernel/rts/RetainerProfile.c:235-247 | an empty stack in one group |
| Children.Drain | kernel/rts/RetainerProfile.c:431-950 | push and then pop until the entry is gone yields each child of a closure once, in order: fixed fields, payload pointers, then the SRT |
| Children.ChildrenAre | kernel/rts/RetainerProfile.c:431-618 | the children are the closures that the fields of the layout name and the entries of its table whose bits are set, and no others |
| Children.SrtMembersAre | kernel/rts/RetainerProfile.c:364-413 | those of the table, small or large, each once and in order |
| Children.Push | kernel/rts/RetainerProfile.c:431-618 | the first child, and a position from which exactly the others are still to come |
| Children.Pop | kernel/rts/RetainerProfile.c:764-950 | the next child, and a position for exactly the rest; the entry is dropped when there is none |
| Children.FindSmall | kernel/rts/RetainerProfile.c:364-387 | the search of a small table finds the next entry whose bit is set |
| Children.FindLarge | kernel/rts/RetainerProfile.c:388-413 | the same in a large one, across the words of its mask; what the read beyond the mask of a table that fills its last word gives is arbitrary and has no effect |
| Ldv.Telescopes | kernel/rts/ProfHeap.c:634-666 | the running total of what was booked up to census t is the total size of recorded closures void, or dragged, at census t, less those void from before census 1; for any deaths, sizes and eras |
| Ldv.ExactIff | kernel/rts/ProfHeap.c:657-657 | so the total is exact if and only if nothing of positive size recorded was void from before the first era, which the assertions at `kernel/rts/LdvProfile.c:47-48` rule out; the drag total always is |
| Ldv.BookedNone | kernel/rts/ProfHeap.c:249-260 | nothing has been booked to an era that has not begun |
| Ldv.Censuses.Create | kernel/rts/LdvProfile.c:47-48 | a closure is created in the present era, which is not 0, so that the assertions on its word hold |
| Ldv.Censuses.Use | kernel/rts/LdvProfile.c:49-53 | likewise of its last use |
| Ldv.Censuses.RecordDead | kernel/rts/ProfHeap.c:180-241 | the death of a closure in the heap books its size to the first census that counts it and takes it off the present one, or nothing when there is no such census, in the plain totals or in the counters of the identity; the counter that LDV_recordDead expects is there, and what was found in either stays |
| Ldv.Censuses.ProcessDead | kernel/rts/LdvProfile.c:57-121 | a dead closure of a primitive type, inherently used, is not recorded; the types are those that the census counts as prim, so that no death is booked that was not counted |
| Ldv.Censuses.ProfObject | kernel/rts/ProfHeap.c:831-900 | a closure in the heap adds its size to prim, not_used or used, in the plain counts or in the counter of its identity, made if there is none; nothing booked changes |
| Ldv.Censuses.HeapCensus | kernel/rts/ProfHeap.c:1073-1138 | every closure is counted: not_used and used are the sizes in the heap of those never used and used, for each identity or for all; then the next era begins |
| Ldv.Censuses.NextEra | kernel/rts/ProfHeap.c:278-300 | the next census starts with nothing booked |
| Ldv.Censuses.AggregatePlain | kernel/rts/ProfHeap.c:634-669 | after the loop, void_total and drag_total of census t are exactly the sizes void and dragged at t, and at most the not_used and used counted then, as line 655 asserts of the first |
| Ldv.Censuses.AggregateBySelector | kernel/rts/ProfHeap.c:671-726 | with a selector the same for each identity: exact, and at most what the census found of it; an identity without a counter had nothing void or dragged then |
| Ldv.Censuses.Printed | kernel/rts/ProfHeap.c:758-774 | what dumpCensus prints for the phases selected: for void and drag the sizes void and dragged at the census, for lag those never used then less the void, for use the used less the dragged; no count is negative, as line 774 asserts, and all four make up what the census found |
| Ldv.Censuses.Aggregate | kernel/rts/ProfHeap.c:677-720 | one census: the running totals of the identities it does not know are 0, as line 689 asserts, and those it knows get their totals up to it |
| Ldv.Censuses.AddRunning | kernel/rts/ProfHeap.c:680-702 | each running counter is added to the census that knows its identity, and taken over from there; others are left |
| Ldv.Censuses.AddNew | kernel/rts/ProfHeap.c:705-720 | each identity new in the census starts a running counter |
| Ldv.Censuses.Absent | kernel/rts/ProfHeap.c:685-692 | an identity that a census has no counter for had nothing void or dragged at it |
| Ldv.Censuses.BelowIff | kernel/rts/ProfHeap.c:197-197 | void_total is never above not_used, nor drag_total above used, in the plain counts or for an identity; and strictly below, as asserted of the first, if and only if something void, or dragged, was there at the census before or not all that the census found unused, or used, has died so |
| Ldv.AllVoid | kernel/rts/ProfHeap.c:197-197 | a run in which it is not strictly below |
| Arena.Arena.Alloc | kernel/rts/Arena.c:63-98 | a piece is the next of the current group if it fits with a word to spare, else the first of a new group; arena_blocks grows by the blocks asked for |
| Arena.Arena.PiecesApart | kernel/rts/Arena.c:74-98 | two pieces of an arena have no word in common |
| Arena.Arena.ArenasApart | kernel/rts/Arena.c:74-98 | nor have pieces of two arenas |
| Arena.Arena.Inside | kernel/rts/Arena.c:53-60 | a piece is aligned and inside its group |
| Arena.Arena.Waste | kernel/rts/Arena.c:12-18 | the words never handed out at the ends of all groups but the current one are at most those handed out, and at most half of all words but the room left |
| Arena.Arena.Free | kernel/rts/Arena.c:102-113 | the count goes down by the blocks of the arena's groups |
| Arena.ReceivedExactIff | kernel/rts/sm/BlockAlloc.c:314-338 | allocGroup gives exactly the blocks asked for if and only if these are fewer than a megablock has, or what megablocks hold: a first one and whole further ones |
| Arena.Counter.CountsIff | kernel/rts/Arena.c:83-87 | after any requests, of arenas live or freed, arena_blocks is the blocks held if and only if each request was for less than a megablock or for whole megablocks; otherwise it is too low |
| Arena.Drift | kernel/rts/Arena.c:102-113 | so the count goes wrong: after one request for a block more than a megablock has, and arenaFree, it is below 0, against the assertion there |
| Arena.Arena.constructor | kernel/rts/Arena.c:40-51 | one block, and nothing handed out |
| Arena.Enough | kernel/rts/Arena.c:83-84 | the blocks asked for hold the request, and one fewer would not |

## Left out

- Dead-worker sweep of shutdownCapability (`kernel/rts/Capability.c:882-904`), sparks, tracing, the GC entry of yieldCapability and creation of OS threads.
- Weak memory: each section under a lock, and each lock operation, is one atomic step. MAX_SPARE_WORKERS is a parameter; its value is not in the repository.
- RaiseAsync.RaiseAsync: does not model a stopping frame (`stop_here`) and STM frames; the copy of return values at a stack underflow and the layout of update frames when profiling are not modelled; threads woken by updateThunk on the way are those of Messages, not of this model.
- Freeze.Enter: the entry code of AP_STACK is not part of the repository; the step pushes what `kernel/rts/RaiseAsync.c:704-713` says it pushes.
- Messages.Scheduler.MessageBlackHole: one pass of its loop is one atomic step; the boost of the owner on the run queue is left out. A woken thread is a message that has led to a wake-up; MSG_TRY_WAKEUP messages are not modelled.
- Messages.Scheduler.Claim: eager blackholing is done by code that is not part of the repository; the step lets any thread take any hole at any time.
- ThrowTo.NoCycle: spins on an MVar are left out. Which thread a message is for is arbitrary, so that the runs include more than the real ones.
- WakeUps.CircleFreeIffNoneStale: which message is held while a thunk is updated, and by whose exception, is independent of the threads blocked on the thunk; the two models meet only in the pairs of messages.
- Telling.BoundNotForgotten: a task told while it is not waiting keeps the flag only until it enters yieldCapability, which clears it (`kernel/rts/Capability.c:704`); nothing is stated of such a task.
- Hash.HashTable.Insert: `kcount` and the sizes are unbounded; 32-bit overflow is not modelled. Data is an arbitrary value, so a NULL stored and an absent key are told apart.
- Hash.HashTable.Remove: the assertion for a missing key is not modelled; the result then is None and nothing changes. String keys are hashed by an arbitrary function.
- FileLock.FileLocks.LockFile: the mutex-free global tables are those of one object; freeFileLocking is left out.
- Interpreter.Stack.Apply: CCALL, breakpoints, unboxed returns, machine-code functions and garbage collection go to the scheduler or are left out. BCO instructions other than SLIDE each do a fixed thing to the top of the stack and are left out.
- Profiling.Tree.EnterFunCCS: sequential; CCS_OVERHEAD as the current stack meanwhile, ccsSetSelected and the cost passes are left out.
- RetainerProfile.Traversal.ComputeRetainerSet: final sets are complete only under the conditions of its row, since they are not in general. TREC_CHUNK, weak pointers, mutable lists, the flip bit of the set field and the layout of stack frames are left out: of the closures whose children are visited by recursive calls only the sequence of children is modelled.
- RetainerWalk.PapLoses: the machine shares the heap, the sets and their updates with the traversal, but is not proved to be followed by its methods.
- TraverseStack.Stack.Push: element layout inside a group is left out; a group is an array of entries.
- Ldv.Censuses.RecordDead: the packing of eras into the LDV word and their limit are left out; which closures satisfy the selectors is fixed for each closure, and every closure has an identity.
- Arena.Arena.Alloc: sizes do not overflow. allocGroup is a parameter constrained by what it promises, and may return more blocks than asked for; the numbers of blocks in a megablock are parameters, as the header that defines them is not part of this model.
- Linker, adjustors, statistics, printing, start-up, HPC and the front panel.
