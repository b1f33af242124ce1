# Verification of the kernel's allocator, scheduler and communication primitives

This project models five parts of the kernel and its user land in Dafny and proves their central
promises: the buddy allocator, the round-robin scheduler, the blocking communication primitives
(message queue, pipe, mutex) and the dining philosophers program that runs on the mutexes.
`dafny verify dfyconfig.toml` checks all of it.

Each part has two layers.

* A layer on values holds the meaning: functions on heaps, rings, queues and tables, and the
  theorems about whole runs. These are `Buddy*.dfy`, `SchedulerSpec.dfy`, `SchedulerTheorems.dfy`,
  `SchedulerSelection.dfy`, `SchedulerPids.dfy`, `SchedulerRuns.dfy`, `SchedulerStatuses.dfy`,
  `SchedulerWaiting.dfy`, `MessageQueueSpec.dfy`, `PipeSpec.dfy`, `MutexSpec.dfy`, and the
  `Philosophers*.dfy` files but one.
* A layer of classes works as the C code does: packed bits, links threaded through memory, `prev`
  and `current`, blocks and nodes changed in place. Each of its methods is proved equal to a function
  of the first layer. These are `PageAllocator.dfy` (with `FreeLists.dfy` and `SplitBits.dfy`),
  `Scheduler.dfy`, `Processes.dfy`, `Waiters.dfy`, `MessageQueue.dfy`, `Pipe.dfy`, `Mutex.dfy` and
  `Philosophers.dfy`. `AllocatorDriver.dfy` and `SchedulerDriver.dfy` perform any run of `BuddyState`
  and of `SchedulerRuns` on the data, and `Clients.dfy` uses a pipe and a queue several times.

## How the parts are modelled

**Buddy allocator.** `BuddyHeap` gives every tree node a status and every bucket the ordered list of
its free nodes. Malloc, free and growth are composed of six elementary steps (take, split, merge,
release, two kinds of growth). A block that malloc has popped or that free is still merging counts as
live, so every intermediate heap satisfies the same invariant. The split bit of a node is a
function of the statuses around it (`BitOf`), and every step changes exactly the bit that the code
flips. `BuddyTheorems` then speaks about live blocks alone ("unused": no live block overlaps), so the
statements do not depend on the statuses. `Allocator` holds the packed bits and the first two words of
every slot of MIN_ALLOC bytes: list links in a free block, header first in a live one. The number of
levels is a parameter (at least 3, so that the flags fill whole bytes); the shipped values are 20 buckets of
4096 bytes and up (`Kernel/pageAllocator.h`). `update_max_ptr` adds the base on both sides of its
comparison, so it accepts exactly the absolute addresses up to MAX_ALLOC; the model does the same.

**Scheduler.** The ring is a sequence that starts with the current process and ends with its
predecessor. The mutual recursion of `setNextCurrent` and `handlePriority` terminates because the
total slack (50 - starvation, summed over runnable processes) drops in every round.
`SchedulerSelection` gives the whole recursion one closed form in terms of the entries before the call: the
place selected, the laps walked, and what the walk leaves of every other entry.

**Communication.** System calls are entered through interrupt gates (`Kernel/idtLoader.c:39`), so the
kernel switches only where a call yields. Between two yields a pass of send, receive, lock or unlock
is one step; the mutex of a queue or pipe is never held across a yield, so it is not part of their
state. The protocols let any process be unblocked or deleted at any time.

**Mutexes.** `MutexSpec.RunsWake` covers runs in which anybody unlocks, as when a mutex serves as a
semaphore; `MutexSpec.RunsSafe` adds mutual exclusion for runs in which only holders do.

**Philosophers.** User programs are preempted anywhere, so every lock, test, assignment and unlock
is a step of its own. In `PhilosophersSpec` a lock step is possible while the value is not 0;
`PhilosophersBlocking` puts the same program on the kernel's mutexes, where a process that finds a
mutex closed is blocked until somebody unblocks it, and shows that every process whose step is possible
can run.

## Results that are not plain confirmations

* A queue waiter is woken too early, because the bytes that have just arrived are subtracted from its
  request although they are already in the queue. `WokenTooEarly` says exactly when; no wake-up is lost
  because of it.
* `take_fork` can leave a hungry philosopher between neighbours who do not eat, although its comment
  says that a philosopher eats if the neighbours do not: exactly on the first request of a newcomer
  that is refused while a neighbour waits for it alone (`TakeMissesNobodyIff`). The program gets there
  from its start (`MissedRun`), and in no other way (`NobodyMissedUnlessBlocked`).
* The priority that the scheduler serves only sinks until the number of processes changes
  (`PriorityOnlySinks`); from then on processes of higher priorities run because they have been passed
  over most often (`SelectionJustified`), within the bound of `BoundedWaiting`.
* `killProcess` takes its node out of the ring exactly when prev is the node before it
  (`KillUnlinksIff`). After the second process has been added, and until the next switch, it is not
  (`KillComesTooEarly`); runs therefore record whether it is, and kill only then.
* `createProcess` does not notice that `insertProcess` found the process table full: the process joins
  the ring uncounted, and with a number that was never written. `AdditionCountsIff` and `FullTable` say
  exactly when the count falls behind; runs add processes only while a slot is free.
* Malloc refuses a request when the one block that it would use reaches beyond the address limit, even
  if another free block would serve: `MallocFailsIff` gives the exact condition, `UnreachableBlockBlocks`
  says that such a block shuts out every request that leads to it, and `SmallRefusedLargeServed` is a run
  of three calls after which 4088 and 8184 bytes are refused and 16376 bytes are served.

## Model

| member | source | states |
|---|---|---|
| BuddyIndex.ChildrenHalve | Kernel/pageAllocator.c:28-35 | the children of a node are nodes of the next bucket and cover the two halves of its range |
| BuddyIndex.FamilyLevels | Kernel/pageAllocator.c:403-404 | parent and sibling of a node: the sibling map is an involution without fixed points, siblings share their parent, and a node is the left or right child of its parent |
| BuddyIndex.SlotInArena | Kernel/pageAllocator.c:52-56 | every node of every bucket lies inside the arena |
| BuddyIndex.NodeOfSlot | Kernel/pageAllocator.c:130-141 | node_for_ptr undoes ptr_for_node, from any address inside the node |
| BuddyIndex.SlotOfNode | Kernel/pageAllocator.c:130-141 | the node found for an address of the arena belongs to the bucket and contains the address |
| BuddyIndex.NodeAtParent | Kernel/pageAllocator.c:404-405 | one bucket up, the node of an address is the parent of its node |
| BuddyIndex.BucketForTight | Kernel/pageAllocator.c:158-172 | a bucket is the result exactly when the request fits its blocks and not those of the next bucket |
| BuddyHeap.TakeKeeps | Kernel/pageAllocator.c:274-296 | popping the last free node of a bucket keeps the whole invariant and makes exactly that node live |
| BuddyHeap.SplitKeeps | Kernel/pageAllocator.c:334-339 | keeping the left half and listing the right half keeps the invariant; the right half was not listed before |
| BuddyHeap.MergeKeeps | Kernel/pageAllocator.c:392-405 | taking the free buddy off its list and moving to the parent keeps the invariant |
| BuddyHeap.ReleaseKeeps | Kernel/pageAllocator.c:414 | listing a block whose buddy is not free keeps the invariant |
| BuddyHeap.GrowUnusedKeeps | Kernel/pageAllocator.c:184-195 | doubling a tree that is free keeps the invariant and the live nodes |
| BuddyHeap.GrowUsedKeeps | Kernel/pageAllocator.c:197-219 | doubling a tree in use keeps the invariant and the live nodes |
| BuddyBits.TakeFlips | Kernel/pageAllocator.c:311-325 | popping a block changes exactly the bit of its parent |
| BuddyBits.SplitFlips | Kernel/pageAllocator.c:334-339 | splitting a block changes exactly its own bit |
| BuddyBits.HeldParentBit | Kernel/pageAllocator.c:375-394 | the bit above a block in use tells whether its buddy is free, although it does not tell unused from used |
| BuddyBits.MergeFlips | Kernel/pageAllocator.c:375-406 | a merge changes exactly the bit of the parent |
| BuddyBits.ReleaseFlips | Kernel/pageAllocator.c:376-394 | freeing without a merge changes exactly the bit of the parent |
| BuddyBits.GrowUnusedBits | Kernel/pageAllocator.c:184-195 | doubling a free tree needs no change of bits |
| BuddyBits.GrowUsedBits | Kernel/pageAllocator.c:212-219 | doubling a tree in use changes exactly the bit above the new root, and none at bucket 0 |
| BuddyAlloc.GrownHalf | Kernel/pageAllocator.c:285-296 | after the forced growth the list of the bucket holds exactly the new right half, so the second pop is never NULL |
| BuddyCover.BlocksDisjoint | Kernel/pageAllocator.c:124-141 | two free or live blocks that share an address are the same block |
| BuddyCover.Tiling | Kernel/pageAllocator.c:179-223 | exactly the addresses under the current root lie in a block, and each in one only |
| BuddyCover.InnerHasLive | Kernel/pageAllocator.c:37-45 | a divided node always contains a live block |
| BuddyState.InitialValid | Kernel/pageAllocator.c:238-243 | the tree before the first call is valid |
| BuddyState.MallocValid | Kernel/pageAllocator.c:225-350 | malloc keeps validity, and a block handed out was not live |
| BuddyState.FreeValid | Kernel/pageAllocator.c:352-414 | free of a live block keeps validity |
| BuddyState.StepValid | Kernel/pageAllocator.c:225-414 | any malloc, and free of any live block, leads from a valid state to a valid one, and the root never shrinks back |
| BuddyState.RunsValid | Kernel/pageAllocator.c:225-414 | every run of malloc and free stays valid, and the root never shrinks back |
| BuddyState.RunsGoOn | Kernel/pageAllocator.c:225-414 | no run gets stuck: after it any request, and the free of any live block, gives a longer run |
| AllocatorDriver.Execute | Kernel/pageAllocator.c:225-414 | every run can be performed on the allocator's own data, call by call, with the addresses that malloc returned |
| BuddyTheorems.SplitBitIsXor | Kernel/pageAllocator.c:37-48 | in every valid state the bit of a node is the exclusive or of "unused" over its children, and 0 above the parent of the root |
| BuddyTheorems.ListsAreCanonical | Kernel/pageAllocator.c:4-9 | the list of a bucket holds exactly its maximal unused nodes, once each |
| BuddyTheorems.LiveAndFreeTile | Kernel/pageAllocator.c:179-414 | live and listed blocks partition exactly the addresses under the current root |
| BuddyTheorems.SlotsConserved | Kernel/pageAllocator.c:179-414 | live slots and free slots add up to the size of the current root |
| BuddyTheorems.LiveBlockFits | Kernel/pageAllocator.c:245-250 | a live block is aligned to its size, holds request and header, and is less than twice as large as needed unless it is a single slot |
| BuddyTheorems.NoFreeBuddies | Kernel/pageAllocator.c:371-374 | no two buddies are free |
| BuddyTheorems.FullyCoalesced | Kernel/pageAllocator.c:371-414 | once nothing is live the root is the only free block and all bits are 0 |
| BuddyTheorems.FreeAllCoalesces | Kernel/pageAllocator.c:352-414 | whatever the run and the order of frees, freeing everything leaves one free block, the current root |
| BuddyTheorems.FreeUndoesSplitting | Kernel/pageAllocator.c:334-339 | freeing a block that was split off has the effect of freeing the block it was split from |
| BuddyTheorems.ReleaseUndoesTake | Kernel/pageAllocator.c:299-309 | putting the popped block back restores the heap exactly |
| BuddyTheorems.FreeUndoesMalloc | Kernel/pageAllocator.c:408-414 | freeing the block just handed out restores every bit and every list, order included, unless the tree grew |
| BuddyLimits.ShippedArena | Kernel/pageAllocator.h:20-44 | the shipped constants satisfy the condition under which growth is never refused |
| BuddyLimits.GrowthNeverRefused | Kernel/pageAllocator.c:205-208 | with half of the arena addressable, growth never fails |
| BuddyFailure.ExhaustedIff | Kernel/pageAllocator.c:274-297 | the tree cannot grow and no list searched has a block exactly when no aligned block of the needed size is unused, anywhere in the arena |
| BuddyFailure.MallocFailsIff | Kernel/pageAllocator.c:233-309 | malloc fails exactly when the request exceeds the arena, or no aligned block of the needed size is unused, or the block it would use (the last one of the first non-empty list, or the half that growth adds) reaches beyond the limit |
| BuddyFailure.MallocLands | Kernel/pageAllocator.c:225-350 | where a block is handed out: the start of the arena, right behind a first block of its size, the half added by one doubling, or the last block of the first bucket with a listed one; and where the root is afterwards |
| BuddyFailure.UnreachableBlockBlocks | Kernel/pageAllocator.c:299-309 | a listed block beyond the limit makes every request that leads to it fail, with the state unchanged |
| BuddyExample.SmallRefusedLargeServed | Kernel/pageAllocator.c:299-309 | a run from the first call after which small requests are refused although a free block would serve them, and a larger one is served |
| BuddyFailure.FailedMallocChangesNothing | Kernel/pageAllocator.c:299-309 | a failed malloc keeps all live blocks, and changes nothing at all unless the tree grew |
| BuddyLimits.MallocBounded | Kernel/pageAllocator.c:303-309 | malloc keeps every link, header and live block below the address limit |
| BuddyLimits.FreeBounded | Kernel/pageAllocator.c:402-414 | free keeps every link, header and live block below the address limit |
| BuddyLimits.RunsBounded | Kernel/pageAllocator.c:70-75 | over every run nothing at or beyond the limit is linked or handed out |
| BuddyLimits.AlwaysBounded | Kernel/pageAllocator.c:58-75 | the same for every run from the first call on, if the first link is addressable, in bytes: base + end of every live block, and base + 16 bytes of every listed one, are at most the size of the arena |
| SplitBits.FlipOneFlag | Kernel/pageAllocator.c:145-156 | flipping a packed flag flips that flag and no other |
| FreeLists.PushRing | Kernel/pageAllocator.c:87-97 | list_push appends the entry to the circular list |
| FreeLists.RemoveRing | Kernel/pageAllocator.c:99-110 | list_remove takes out exactly the entry, without knowing its list |
| FreeLists.RingsAfterPush | Kernel/pageAllocator.c:87-97 | a push changes words of one ring only, and all rings stay in order |
| FreeLists.RingsAfterRemove | Kernel/pageAllocator.c:99-110 | a removal changes words of one ring only, and all rings stay in order |
| FreeLists.RingsAfterInit | Kernel/pageAllocator.c:77-85 | initialising the list of the new root's bucket leaves the other rings in order |
| PageAllocator.RingOutsideLive | Kernel/pageAllocator.c:91-110 | list operations write into no live block |
| PageAllocator.Allocator.constructor | Kernel/pageAllocator.c:9-62 | zeroed statics stand for the initial state |
| PageAllocator.Allocator.UpdateMaxPtr | Kernel/pageAllocator.c:70-75 | accepts exactly the absolute addresses up to MAX_ALLOC |
| PageAllocator.Allocator.BucketForRequest | Kernel/pageAllocator.c:162-172 | the loop computes the bucket characterised by BucketForTight |
| PageAllocator.Allocator.PopNode | Kernel/pageAllocator.c:115-122 | returns NULL exactly on an empty list, otherwise the last entry, which leaves the list |
| PageAllocator.Allocator.GrowUnusedStep | Kernel/pageAllocator.c:190-195 | remove, init and push amount to one doubling of the free tree |
| PageAllocator.Allocator.GrowUsedStep | Kernel/pageAllocator.c:205-219 | push, init and flip amount to one doubling of the tree in use |
| PageAllocator.Allocator.LowerBucketLimit | Kernel/pageAllocator.c:179-223 | the loop computes GrowTo, result included, and writes into no live block |
| PageAllocator.Allocator.SplitLoop | Kernel/pageAllocator.c:334-339 | the loop computes SplitDown and writes into no other live block |
| PageAllocator.Allocator.FinishBlock | Kernel/pageAllocator.c:299-339 | limit check, push back on refusal, flip and split amount to Carve |
| PageAllocator.Allocator.FindBlock | Kernel/pageAllocator.c:257-350 | the search loop computes MallocFrom and writes into no live block |
| PageAllocator.Allocator.FirstInit | Kernel/pageAllocator.c:238-243 | the first call sets up the data structure for the initial tree |
| PageAllocator.Allocator.MyMalloc | Kernel/pageAllocator.c:225-350 | new state and success are those of Malloc; eight bytes before the address returned the block begins, with the request in its first word, and the bytes requested lie in the block; no word of an older live block changes |
| PageAllocator.Allocator.MergeRound | Kernel/pageAllocator.c:375-406 | flip, test and merge: the loop stops exactly when the buddy is not free |
| PageAllocator.Allocator.FreeLoop | Kernel/pageAllocator.c:375-414 | the loop and the final push compute FreeUp |
| PageAllocator.Allocator.MyFree | Kernel/pageAllocator.c:352-414 | NULL is ignored; otherwise the header eight bytes before the address leads to the node that malloc chose, the new state is that of FreeBlock, and no word of another live block changes |
| PageAllocator.Allocator.ClientStore | Kernel/pageAllocator.c:341-346 | a client that writes into its block, header excepted, cannot disturb the allocator |
| SchedulerSpec.PassOverFacts | Kernel/scheduler.c:156-170 | each round of the skip loop brings the next runnable process closer and keeps the total slack |
| SchedulerSpec.SelectionEndsIff | Kernel/scheduler.c:154-171 | the skip loop comes to a process that can run exactly when there is one |
| SchedulerSpec.PassedFacts | Kernel/scheduler.c:122-128 | passing over a process by priority lowers the total slack, which is why the recursion ends |
| SchedulerTheorems.SetNextKeepsCycle | Kernel/scheduler.c:110-173 | the selection keeps the cyclic order, removes deleted processes only, and counts them |
| SchedulerTheorems.SwitchSafety | Kernel/scheduler.c:36-51 | after a switch the same cycle remains minus deleted processes, and the current process is the only running one |
| SchedulerTheorems.KillSafety | Kernel/scheduler.c:88-98 | killing removes the current process and deleted ones only, and the next one can run |
| SchedulerTheorems.YieldSwitches | Kernel/scheduler.c:100-105 | a yield always ends the turn, whatever the quantum was |
| SchedulerTheorems.SelectionJustified | Kernel/scheduler.c:117-141 | the process selected has the priority in priorityHandling, with the counter at 0, or of all processes that can run it had been passed over most often before the call, ties going to the first in ring order |
| SchedulerSelection.SelectionWalks | Kernel/scheduler.c:110-173 | one closed form of every call: the ring begins with the entry at place d after some laps, each other entry has been passed over once per visit, deleted ones that were visited are gone and counted; who is selected has the priority served or was passed over 50 times; the first process that can run is taken at once exactly when it has the priority in force or is overdue; and priority and counter have moved on by the number of visits |
| SchedulerSelection.NobodyServedIsPassed | Kernel/scheduler.c:112-121 | the first process that can run is selected if it has the priority in force, and while that does not sink nobody who has it is passed over |
| SchedulerSelection.LevelClosed | Kernel/scheduler.c:138-150 | the priority sinks by one for every N processes handled without a match, down to 3, and the counter holds the rest |
| SchedulerSelection.TickWalks | Kernel/scheduler.c:23-52 | a tick within the quantum only takes one of it; otherwise the process goes to the end with quantum 1, READY if it was RUNNING, and the one selected from the next on is RUNNING, with statuses, priorities and quanta of all others unchanged |
| SchedulerSelection.YieldWalks | Kernel/scheduler.c:100-105 | a yield takes the quantum of the current process and gives one to the next in the ring, whoever is selected then |
| SchedulerSelection.KillWalks | Kernel/scheduler.c:88-98 | a kill takes the current process out of the ring, and gives one quantum to the process selected from the next on, and to nobody else |
| SchedulerTheorems.PriorityOnlySinks | Kernel/scheduler.c:112-150 | the priority served stays between 1 and 3, and its number never decreases while the number of processes stays the same |
| SchedulerRuns.StepKeepsInv | Kernel/scheduler.c:23-173 | tick, yield, addition while the process table has a free slot, kill while prev is in place, deletion and changes of status or priority keep the invariant of runs |
| SchedulerRuns.RunsSafe | Kernel/scheduler.c:23-173 | over every run: the ring holds each process that was added and neither killed nor deleted exactly once, its length is the number of processes counted and at most 32, every node has a process number of its own, an addition is possible exactly below 32, only the current process is ever RUNNING, and no starvation counter exceeds 50 |
| SchedulerPids.FreeSlotIff | Kernel/processes.c:22-38 | the process table has a free slot exactly while the ring has fewer than 32 nodes, and the ring never has more |
| SchedulerRuns.AdditionCountsIff | Kernel/processes.c:22-51 | an addition leaves the count of processes equal to the length of the ring exactly while a slot is free |
| SchedulerRuns.FullTable | Kernel/processes.c:22-51 | a run of 32 additions after which one more would leave 33 nodes in the ring and 32 processes counted |
| SchedulerStatuses.StepStatus | Kernel/scheduler.c:36-51 | every step, for each process that stays: the one selected was READY or RUNNING and is RUNNING, the one whose turn ended is READY if it was RUNNING, a change of status hits the process named, and every other status stays |
| SchedulerStatuses.BlockedStaysBlocked | Kernel/scheduler.c:36-51 | over every run a blocked process stays in the ring and BLOCKED until its status is changed or it is killed |
| SchedulerStatuses.DeletedStaysDeleted | Kernel/scheduler.c:154-171 | over every run a deleted process stays deleted until it is gone, and does not come back |
| SchedulerWaiting.BoundedWaitingInRuns | Kernel/scheduler.c:23-173 | in every run without additions in which p is neither blocked, deleted nor killed, p has been selected by the time of 51 * N switches, yields and kills |
| SchedulerRuns.KillComesTooEarly | Kernel/scheduler.c:75-92 | after two additions prev is not the predecessor, and a kill is not one of the steps |
| SchedulerDriver.Perform | Kernel/scheduler.c:23-105 | every step of a run is a call that the scheduler accepts in that state, and leads to the state of the run; prev is the predecessor exactly when the run says so |
| SchedulerDriver.Execute | Kernel/scheduler.c:23-105 | every run from the start can be performed on the scheduler's own data, call by call |
| SchedulerTheorems.TickKeepsStarvation | Kernel/scheduler.c:122-131 | no starvation counter ever exceeds 50 |
| SchedulerTheorems.SetNextPotential | Kernel/scheduler.c:110-173 | while others are selected, the potential (50 - starvation) * N + distance of a waiting process does not grow |
| SchedulerTheorems.BoundedWaiting | Kernel/scheduler.c:23-52 | a process that stays ready becomes current within 51 * N quantum-expired calls, whatever the priorities and the changes of other processes in between |
| Scheduler.Scheduler.Advance | Kernel/scheduler.c:44-45 | prev and current move one node on, and prev is then the predecessor |
| Scheduler.Scheduler.Unlink | Kernel/scheduler.c:160-165 | the current node leaves the cycle |
| Scheduler.Scheduler.HandlePriority | Kernel/scheduler.c:110-152 | computes Handle, and ends |
| Scheduler.Scheduler.SetNextCurrent | Kernel/scheduler.c:154-173 | computes SetNext, ends, and leaves prev->next == current |
| Scheduler.Scheduler.SwitchProcess | Kernel/scheduler.c:36-51 | the switch computes Switch and leaves one cycle with prev->next == current |
| Scheduler.Scheduler.NextProcess | Kernel/scheduler.c:23-52 | nothing without processes, otherwise the tick of the specification; a switch needs a process that can run, a tick within the quantum does not |
| Scheduler.Scheduler.AddProcess | Kernel/scheduler.c:68-86 | the new node comes right after the current one, with a fresh quantum; prev is then the predecessor unless the ring had one node |
| Scheduler.Scheduler.KillProcess | Kernel/scheduler.c:88-98 | computes Kill, given prev->next == current |
| Scheduler.Scheduler.KillUnlinksIff | Kernel/scheduler.c:92 | prev->next = current->next takes the killed node out of the cycle exactly when prev is the predecessor; otherwise the last node still leads to it |
| Scheduler.Scheduler.YieldProcess | Kernel/scheduler.c:100-105 | donates a quantum to the next process and switches |
| Processes.ProcessTable.BlockProcess | Kernel/processes.c:202-208 | blocks a process unless it is deleted |
| Processes.ProcessTable.UnblockProcess | Kernel/processes.c:210-214 | readies a process unless it is deleted |
| Scheduler.Scheduler.ChangeStatus | Kernel/processes.c:158-214 | changes the status of one process unless it is deleted, and nothing else |
| Scheduler.Scheduler.ChangePriority | Kernel/processes.c:361-372 | sets a priority from 1 to 3, and ignores any other |
| Scheduler.Scheduler.InsertProcess | Kernel/processes.c:22-38 | counts a process if the table has a free slot for it, and otherwise does not |
| Waiters.WaitList.PushFront | Kernel/messageQueueADT.c:178-186 | a new waiter goes to the front of the doubly linked list |
| Waiters.WaitList.Remove | Kernel/messageQueueADT.c:94-104 | exactly the given waiter is unlinked, and the walk goes on after it |
| MessageQueueSpec.AvailableIff | Kernel/messageQueueADT.c:32-43 | data is available exactly when the category has a message and at least that many bytes |
| MessageQueueSpec.TakeDelivers | Kernel/messageQueueADT.c:45-84 | receiving delivers the first bytes of the category, leaves the rest, and keeps all other messages in order |
| MessageQueueSpec.TakeLeavesOthers | Kernel/messageQueueADT.c:70-75 | receiving leaves the stream of every other category as it was |
| MessageQueueSpec.TakeCuts | Kernel/messageQueueADT.c:45-78 | receiving takes whole messages of the category up to some place, less than all bytes of the message there, and leaves every other message in its place |
| MessageQueueSpec.SendEffect | Kernel/messageQueueADT.c:147-170 | a send adds its message at the end; exactly the waiters of the category leave for whom the bytes held reach size - length (all waiters if it is to everybody), the others keep their order; a process is READY if one of its waiters left and it is not deleted, and every other status stays |
| MessageQueueSpec.ReceiveEffect | Kernel/messageQueueADT.c:172-197 | with enough bytes of the category a pass takes the first ones and changes nothing but the messages; otherwise it adds its waiter in front and blocks its process unless deleted, and nothing else |
| MessageQueueSpec.WakeUpEffect | Kernel/messageQueueADT.c:86-109 | a process still blocked after a wake-up was blocked before and has no woken waiter |
| MessageQueueSpec.WokenTooEarly | Kernel/messageQueueADT.c:89 | a waiter is woken without enough data exactly when the shortfall is positive and at most the bytes that just arrived |
| MessageQueueSpec.WokenTooEarlyExample | Kernel/messageQueueADT.c:89 | an input for which that happens |
| MessageQueueSpec.SendKeepsWaiters | Kernel/messageQueueADT.c:147-170 | after a send every queued request is still unavailable |
| MessageQueueSpec.ReceiveKeepsWaiters | Kernel/messageQueueADT.c:172-197 | after a pass of receive every queued request is still unavailable |
| MessageQueueSpec.StepKeepsInv | Kernel/messageQueueADT.c:147-197 | every step of every process keeps the protocol's invariant |
| MessageQueueSpec.RunsSafe | Kernel/messageQueueADT.c:147-197 | over every interleaving: no byte lost or reordered per category, and a process blocked in receive is queued with an unavailable request |
| MessageQueueSpec.ReceiveWhileAvailable | Kernel/messageQueueADT.c:172-197 | after every run a waiting process whose request is available can run, and its next pass delivers exactly the first bytes of its category and ends its wait; otherwise a pass blocks it again |
| MessageQueueSpec.DeletedStaysDeleted | Kernel/processes.c:202-214 | over every run no send or receive takes a deleted process out of that status |
| MessageQueue.MessageQueue.IsMessageAvailable | Kernel/messageQueueADT.c:32-43 | the loop computes Available |
| MessageQueue.MessageQueue.LengthAvailable | Kernel/messageQueueADT.c:199-209 | the loop returns the length of the category's stream |
| MessageQueue.ShiftLeft | Kernel/messageQueueADT.c:64-66 | the remaining bytes move to the front of their buffer in place |
| MessageQueue.MessageQueue.SearchMessageR | Kernel/messageQueueADT.c:45-78 | the recursive splice delivers and leaves what Take says, with head, tail and last links in order |
| MessageQueue.MessageQueue.SearchMessage | Kernel/messageQueueADT.c:80-84 | the same for the whole queue, whose first and last links are right again |
| MessageQueue.MessageQueue.UnblockProcesses | Kernel/messageQueueADT.c:86-109 | wakes and unlinks exactly the waiters that are woken |
| MessageQueue.MessageQueue.SendMessage | Kernel/messageQueueADT.c:147-170 | new state is that of Send |
| MessageQueue.MessageQueue.ReceivePass | Kernel/messageQueueADT.c:172-197 | new state and delivered bytes are those of Receive |
| Clients.UseQueue | Kernel/messageQueueADT.c:147-197 | two sends and two passes of receive on one queue add up to those of the protocol |
| PipeSpec.WakeUpEffect | Kernel/pipesADT.c:52-76 | a process still blocked after a wake-up was blocked before and asks for more than there is |
| PipeSpec.SendEffect | Kernel/pipesADT.c:78-110 | a send adds its bytes at the end; exactly the waiters whose request is covered leave, the others keep their order; a process is READY if one of its waiters left and it is not deleted, and every other status stays |
| PipeSpec.ReceiveEffect | Kernel/pipesADT.c:112-154 | with enough bytes a pass takes the first ones and changes nothing else; otherwise it adds its waiter in front and blocks its process unless deleted, and nothing else |
| PipeSpec.StepKeepsInv | Kernel/pipesADT.c:78-154 | every step of every process keeps the protocol's invariant |
| PipeSpec.RunsSafe | Kernel/pipesADT.c:78-154 | over every interleaving: bytes received followed by bytes buffered are the bytes sent, and a process blocked in receive is queued for more than there is |
| PipeSpec.ReceiveWhileCovered | Kernel/pipesADT.c:112-154 | after every run a waiting process whose request is covered can run, and its next pass delivers exactly the first bytes buffered and ends its wait; otherwise a pass blocks it again |
| PipeSpec.DeletedStaysDeleted | Kernel/processes.c:202-214 | over every run no send or receive takes a deleted process out of that status |
| Pipe.Pipe.ChainBound | Kernel/pipesADT.c:87-106 | the chain has at most size / 100 + 2 blocks |
| Pipe.Pipe.Extend | Kernel/pipesADT.c:89-93 | a full last block is followed by a new, empty one |
| Pipe.Pipe.WriteAll | Kernel/pipesADT.c:88-106 | the loop appends exactly the text to the buffered bytes |
| Pipe.Pipe.ReadRound | Kernel/pipesADT.c:138-151 | a round frees a used-up first block, which is never the last one, or reads part of it; the block always exists |
| Pipe.Pipe.ReadAll | Kernel/pipesADT.c:137-151 | the loop delivers exactly the first bytes, leaves the others, and never frees the last block |
| Pipe.Pipe.UnblockProcessesPipe | Kernel/pipesADT.c:52-76 | wakes and unlinks exactly the waiters whose request is covered |
| Pipe.Pipe.SendMessagePipe | Kernel/pipesADT.c:78-110 | new state is that of Send, with size equal to the buffered bytes |
| Pipe.Pipe.ReceivePass | Kernel/pipesADT.c:112-154 | new state and delivered bytes are those of Receive, with size equal to the buffered bytes |
| Clients.UsePipe | Kernel/pipesADT.c:78-154 | two sends and two passes of receive on one pipe add up to those of the protocol |
| Clients.PipeRoundTrip | Kernel/pipesADT.c:78-154 | two passes deliver, one after the other, the first bytes of what two sends stored |
| MutexSpec.RunsWake | Kernel/mutex.c:50-76 | over every interleaving in which anybody unlocks: a process blocked in the lock's loop waits for a value of 0, and is recorded |
| MutexSpec.LockWhileOpen | Kernel/mutex.c:50-63 | a process in the loop can run while the value is not 0, and its next pass gets the lock; otherwise a pass blocks it again |
| MutexSpec.StepKeepsInv | Kernel/mutex.c:50-76 | every step with unlocks by holders keeps the invariant of exclusion |
| MutexSpec.RunsSafe | Kernel/mutex.c:50-76 | over every interleaving in which only holders unlock: at most one process is past the lock, one exactly while the value is 0, and one while another is blocked |
| MutexSpec.UnlockWakesAll | Kernel/mutex.c:68-72 | an unlock leaves nobody blocked in the loop of that mutex |
| MutexSpec.LockEffect | Kernel/mutex.c:50-63 | a pass on an open mutex closes it and changes nothing else; on a closed one it records the process and blocks it unless deleted, and nothing else |
| MutexSpec.UnlockEffect | Kernel/mutex.c:65-72 | an unlock opens the mutex and keeps its record; recorded processes are READY unless deleted, deleted ones stay so, and who is not recorded keeps its status |
| MutexSpec.UnlockSparesStrangers | Kernel/mutex.c:68-70 | over every run an unlock leaves the status of each process as it was that has not tried to lock this mutex before |
| MutexSpec.DeletedStaysDeleted | Kernel/mutex.c:68-70 | over every run no lock or unlock takes a deleted process out of that status |
| Mutex.Mutex.LockPass | Kernel/mutex.c:50-63 | one pass of the lock is the Lock of the protocol |
| Mutex.Mutex.MutexUnlock | Kernel/mutex.c:65-72 | the sweep and the exchange are the Unlock of the protocol |
| PhilosophersSpec.Neighbours | Userland/SampleCodeModule/diningPhilosophers.c:10-11 | LEFT and RIGHT are neighbouring seats and undo each other |
| PhilosophersTheorems.StepKeepsInv | Userland/SampleCodeModule/diningPhilosophers.c:21-116 | every single step of any process keeps the protocol's invariant |
| PhilosophersTheorems.NeighboursNeverEatTogether | Userland/SampleCodeModule/diningPhilosophers.c:21-78 | in every interleaving two neighbours never both hold a grant, and whoever holds one is EATING |
| PhilosophersTheorems.OpenMeansGranted | Userland/SampleCodeModule/diningPhilosophers.c:35-56 | in every interleaving an open S[i] means that i has a grant and is on the way to its wait, and who is past the wait has a grant |
| PhilosophersTheorems.OneInside | Userland/SampleCodeModule/diningPhilosophers.c:43-77 | in every interleaving at most one process is between lock and unlock of the mutex |
| PhilosophersTheorems.OnlyHolderWrites | Userland/SampleCodeModule/diningPhilosophers.c:43-77 | only the process inside the mutex changes state or numberOfPhilosophers |
| PhilosophersTheorems.AlwaysSomeStep | Userland/SampleCodeModule/diningPhilosophers.c:80-116 | no deadlock: once somebody sits at the table some process can always take a step |
| PhilosophersBlocking.StepKeepsAgree | Userland/SampleCodeModule/diningPhilosophers.c:21-116 | on the kernel's mutexes every step, failed attempt and spurious unblock keeps values, waiting processes and statuses in agreement with the program |
| PhilosophersBlocking.SomebodyRuns | Userland/SampleCodeModule/diningPhilosophers.c:35-56 | with blocked processes: over every run each process whose step is possible is not blocked, S[i] being unlocked by others, and somebody at the table can always go on |
| PhilosophersGrants.TakeSection | Userland/SampleCodeModule/diningPhilosophers.c:45-51 | there is a run of i alone from its assignment to the end of take_fork's section, and it does what Take says |
| PhilosophersGrants.PutSection | Userland/SampleCodeModule/diningPhilosophers.c:67-75 | the same for put_fork and Put |
| PhilosophersGrants.AddSection | Userland/SampleCodeModule/diningPhilosophers.c:108-116 | the same for addPhilosopher and Add |
| PhilosophersGrants.TakeServes | Userland/SampleCodeModule/diningPhilosophers.c:40-53 | take_fork makes i EATING and opens S[i] if no neighbour is EATING, otherwise HUNGRY, and changes nobody else |
| PhilosophersGrants.PutServes | Userland/SampleCodeModule/diningPhilosophers.c:62-78 | put_fork makes i THINKING and serves a hungry left neighbour, then a hungry right one, whose other neighbour is not EATING, the left one first at a table of three; nobody else changes |
| PhilosophersGrants.PutOpens | Userland/SampleCodeModule/diningPhilosophers.c:23-37 | put_fork opens S[k] for those whom it makes EATING, and for nobody else |
| PhilosophersRuns.SectionsAreAtomic | Userland/SampleCodeModule/diningPhilosophers.c:43-77 | whatever other processes do meanwhile, the moods at the end of a section are those that Take or Put makes of the table at its start |
| PhilosophersRuns.AddingIsAtomic | Userland/SampleCodeModule/diningPhilosophers.c:108-116 | whatever other processes do meanwhile, addPhilosopher adds one seat and keeps the moods |
| PhilosophersGrants.PutMissesNobody | Userland/SampleCodeModule/diningPhilosophers.c:62-78 | after put_fork no hungry philosopher sits between neighbours that do not eat, if none did before |
| PhilosophersGrants.AddMissesNobody | Userland/SampleCodeModule/diningPhilosophers.c:108-116 | the same for addPhilosopher, thanks to the zero-initialised state |
| PhilosophersGrants.TakeMissesNobodyIff | Userland/SampleCodeModule/diningPhilosophers.c:40-53 | the same for take_fork, exactly unless it is the first request of a newcomer that is refused while a neighbour waits for it alone |
| PhilosophersGrants.MissedExample | Userland/SampleCodeModule/diningPhilosophers.c:40-53 | a table of four for which that happens |
| PhilosophersExample.MissedRun | Userland/SampleCodeModule/diningPhilosophers.c:40-116 | a run from the start of the program to such a state, with the mutex open |
| PhilosophersRuns.NobodyMissedUnlessBlocked | Userland/SampleCodeModule/diningPhilosophers.c:40-116 | in every interleaving without such a first request, whenever the mutex is open each hungry philosopher has an EATING neighbour |
| Philosophers.Table.Test | Userland/SampleCodeModule/diningPhilosophers.c:21-37 | computes Test |
| Philosophers.Table.TakeFork | Userland/SampleCodeModule/diningPhilosophers.c:40-53 | computes Take |
| Philosophers.Table.PutFork | Userland/SampleCodeModule/diningPhilosophers.c:62-78 | computes Put |
| Philosophers.Table.AddPhilosopher | Userland/SampleCodeModule/diningPhilosophers.c:108-116 | computes Add |

## Left out

- Machine integers: requests, lengths, sizes and counters are unbounded, so the wrap-around of `request + HEADER_SIZE` and negative lengths are not modelled.
- Uninitialised and dangling memory: no read of it is modelled; links of freed nodes simply leave the model.
- The allocator inside the other parts: nodes, blocks and buffers of the scheduler, queue and pipe are allocated objects, and a NULL from malloc is not modelled there.
- The mutex of a queue or pipe: it is never held across a yield, so the sections it guards are single steps.
- `mutexInit` by name, `mutexClose`, `closeAllMutex`, and the `id` of a mutex, which the eight-byte exchange in `Kernel/asm/mutexInstructions.asm` overwrites.
- The value that `mutexUnlock` returns, which is read after the yield.
- `deleteMessageQueue`, `deletePipe` and the flag of `unblockProcessesPipe` that wakes everybody.
- The rest of `Kernel/processes.c`: creation, memory pages, foreground and reuse of process numbers. Deletion is a change of status that may happen at any time.
- `block` and `unblock` of the scheduler on a generic queue, and that queue.
- Scheduler.Scheduler.KillProcess: requires that prev is the predecessor, which is not yet so between the first addition to a one-node ring and the next switch (KillUnlinksIff says what happens then); and that another process can run.
- Scheduler.Scheduler.NextProcess: requires a process that can run when the quantum is used up; the loop of the code does not end otherwise (SelectionEndsIff).
- SchedulerRuns.StepKeepsInv: additions to a full process table are not steps, because the number of such a process is uninitialised memory; the count is then wrong (AdditionCountsIff).
- The process table itself: its slots are the process numbers in the ring, and InsertProcess looks at the count in place of searching for a free slot.
- Saving and restoring stack pointers in the scheduler.
- PageAllocator.Allocator.constructor: requires at least three levels, so that the flags fill whole bytes; the shipped tree has nineteen.
- PhilosophersTheorems.NeighboursNeverEatTogether: is about the first run of the program, on zero-initialised storage, and without removal of philosophers, which changes who sits next to whom.
- The messages that the philosophers print, and the loop that reads the keyboard.
- The copies of the allocator, queue and pipe in the test directories.
- Drivers, interrupts, boot code, fonts, shell commands, games and the file system utility: input and output, or only easy claims.
