# Verified model of the kernel

Dafny models of the parts of a small x86-64 kernel that carry state over long runs, with proofs of
what they keep: page tables over a bitmap of frames, the ELF loader, the window compositor, the xHCI
driver's rings, port enumeration and control transfers, the preemptive scheduler with mailboxes and
timers, the PCI scan and the FAT reader. `dafny verify dfyconfig.toml` checks everything.

Code that changes state in place is a class or a method with loops, proved against a specification
function or predicate; what the kernel relies on is then proved about that specification, over all
runs where it is a property of runs.

| files | what they model |
|---|---|
| Bits, FrameAllocator, MemoryMap | words and masks, the frame bitmap, its set-up from the firmware's memory map |
| PageTree, PageGrowth, PageTeardown, Paging, Elf | four-level page tables as trees of distinct frames, mapping, unmapping, loading a program |
| Scheduler, SchedulerRuns, SchedulerEffects, TaskManager, TimerManager | run queues and levels, mailboxes, runs of calls, what each call does to the tasks, the timer queue |
| PciTree, PciOrder, PciScan | the recursive bus scan, and what it meets, said by the paths through bridges |
| TrbRing, RingDriver, LateLink | a ring shared with the controller, one dword at a time; the driver's two ends; a run that needs Link TRBs counted |
| PortEnumeration, PortProgress, XhciPorts | the port phase machine, its safety and its progress, and the handlers that drive it |
| ArrayMap, ControlTransfer, ControlStages, ControlRuns, XhciDevice | control transfers, what the controller reads of them and how completions are matched to requests, over runs with failures |
| Graphics, FrameBuffer, Window, Compositor, LayerManager, ActiveLayer | pixels, block transfers, windows, the layer stack and its partial redraws |
| Fat, ShortNames, FatDirectory | cluster chains, file loading, short names, directory search |

## Assumptions

- Physical memory is a map from frame numbers to tables and to page data; every frame is reachable
  through the identity map, and only the application half of the PML4 is looked at. A walk that ends
  gives the frame of the page, and translation caches play no part.
- A task switch is a change of the current task. Calls of the task manager, and the receive-or-sleep
  section of a message loop, are atomic. Task contexts are not modelled.
- The controller, the configuration space, the contents of files and images, and the order in which
  events arrive are arbitrary inputs. In TrbRing the two sides interleave at every dword.
- Integers are unbounded except where a width matters: the words of the bitmap, linear addresses, the
  fields of TRBs, FAT entries, and the tick counter, whose last value is not reached.
- Two layers never share one window where a window's contents change.
- A local variable that the code leaves unset has some value, which is a parameter (`stale`). What lies on the
  stack behind a name's two character arrays is any bytes up to some zero (`Tails`), which may differ from
  entry to entry.

## What the code does not keep

These were found while stating the properties; each has members below that give its exact condition,
an input that shows it, or both.

- `SetupPageMaps` reports success when the range runs past the end of the PML4; success means that all
  pages are mapped exactly if the range fits (`Paging.SuccessIsComplete`, `Paging.LastPageExample`,
  `Paging.TwoPagesFromLast`).
- `ChangeLevelRunning` erases from the current level's queue, so it keeps the queues in order exactly
  under a condition on the task's level. A second `Wakeup` that names another level for a waiting task
  breaks it; the kernel's own callers leave the level as it is (`SchedulerInvariants.LevelChangeExact`,
  `SchedulerInvariants.LevelChangeExample`).
- Keeping two slots of a ring free of waiting data is not enough: a Link TRB that the consumer has not
  followed counts too (`TrbRingProofs.RoomExact`), and a run leads to such a state
  (`LateLink.DataCountIsNotEnough`).
- The port hand-over restarts only the lowest waiting port, and forgets all waiting ports exactly if
  that one has been unplugged (`PortEnumerationProofs.NoneForgottenExact`,
  `PortEnumerationProofs.ForgottenExample`).
- A control transfer that fails keeps its entry in the 16-entry map. Whatever has failed before, a
  completion is answered with its own request exactly if, when the request was issued, the map had its
  key already or a free entry (`ControlRuns.RunReportsExact`, `ArrayMap.PutExact`). After 16 failures
  the next transfer is reported as unknown; that needs a controller that goes on after each, for the
  driver does not reset an endpoint that halts (`XhciDevice.SixteenFailures`).
- The length field of a data stage has 17 bits: a longer buffer is announced, and reported, with its
  length cut (`ControlTransfer.IssuerRoundTrip`).
- Activating a window puts it directly below the mouse exactly if it was on the stack below the mouse.
  A new window, which `Terminal` and `OpenWindow` activate before it was ever on the stack
  (Kernel/terminal.cpp:26-29 and 432, Kernel/syscall.cpp:76), ends one place lower, below an open window
  (`ActiveLayer.JustBelowExact`, `ActiveLayer.PlacedUnderOne`, `ActiveLayer.NewWindowExample`).
- Drawing a layer that is not on the stack, as `Terminal` does by moving it first (Kernel/terminal.cpp:431),
  copies an area that was never set to the screen. With a clean back buffer that changes nothing, unless
  rows of a negative number of bytes are copied, which is so exactly if the copied area has a negative width
  and a positive height (`FrameBuffer.CopyableExact`, `FrameBuffer.OnScreenCopyArea`,
  `FrameBuffer.NegativeRowsExample`, `Compositor.CopyKeepsComposite`).
- Drawing a clear layer ignores the damaged area, so a clear layer below another one can spoil clean
  points elsewhere (`Compositor.OutsideCleanExact`, `Compositor.ClearBelowFails`).
- `Window::Move` moves the shadow buffer only, so a window shows the move exactly if it is solid or the
  move changes no pixel (`Window.Window.Move`, `Window.ClearMoveExact`, `Window.ClearMoveExample`).
- `NameIsEqual` does not end its two character arrays, so the string it compares is the entry's name,
  whatever lies on the stack, exactly if neither part of the name fills its field (`ShortNames.BuiltExact`,
  `ShortNames.ClosedExact`); `ReadName` does end them. An 8-letter name without extension can be missed, or
  met under another name (`ShortNames.FullNameExample`); `FindFile` is right on every stack exactly if the
  entry looked for is closed and none before it can read as the name (`FatDirectory.SearchExact`).
- `NextCluster` does not mask the four reserved bits of a FAT32 entry (`Fat.NextAsSpecified`).
- `FindFile` ends exactly if it ends within as many clusters as the image has bytes, which is if the chain
  ends or the name is on it (`FatDirectory.StopsExact`, `FatDirectory.StopsIfEndsOrMatches`); a chain that
  leads into a cycle without the name keeps it busy for ever (`FatDirectory.CycleNeverStops`).

## Model

| member | source | states |
|---|---|---|
| Bits.MaskUpdate | Kernel/memory_manager.cpp:35-45 | setting or clearing a word through a one-bit mask changes that bit, no other bit, and stays within 64 bits |
| Bits.AndPow2 | Kernel/memory_manager.cpp:28-33 | a word and a one-bit mask have a common bit exactly if the word has that bit |
| FrameAllocator.BitmapMemoryManager.constructor | Kernel/memory_manager.cpp:13-15 | the empty bitmap stands for the empty set of frames, over the full range |
| FrameAllocator.BitmapMemoryManager.GetBit | Kernel/memory_manager.cpp:28-33 | the bit test answers membership in the set of frames |
| FrameAllocator.BitmapMemoryManager.SetBit | Kernel/memory_manager.cpp:35-45 | the set gains or loses exactly that frame |
| FrameAllocator.MarkOne | Kernel/memory_manager.cpp:35-45 | masking one word of the map changes the mark of one frame only |
| FrameAllocator.BitmapMemoryManager.MarkAllocated | Kernel/memory_manager.cpp:17-21 | the set gains exactly the run of frames |
| FrameAllocator.BitmapMemoryManager.Free | Kernel/memory_manager.cpp:71-77 | the set loses exactly the run of frames |
| FrameAllocator.BitmapMemoryManager.SetMemoryRange | Kernel/memory_manager.cpp:23-26 | only the search range changes |
| FrameAllocator.BitmapMemoryManager.Allocate | Kernel/memory_manager.cpp:47-69 | first fit: the lowest free run in range, which is then marked, or failure with nothing changed exactly if there is no such run, although a failed probe skips i + 1 frames |
| FrameAllocator.AllocateUnique | Kernel/memory_manager.cpp:47-69 | the specification of Allocate determines its result and the new set |
| FrameAllocator.FreeUndoesAllocate | Kernel/memory_manager.cpp:47-77 | allocated frames were free before, and freeing them restores the set |
| MemoryMap.FrameUnits | Kernel/memory_map.hpp:17-55 | for an aligned descriptor, UEFI pages and frames cover the same bytes |
| MemoryMap.DescriptorMarked | Kernel/memory_manager.cpp:102-123 | one round of the loop keeps: below the end mark a frame is clear exactly if an available descriptor covers it |
| MemoryMap.InitializeMemoryManager | Kernel/memory_manager.cpp:92-126 | on a sorted, disjoint, aligned map a frame below the range end is clear exactly if an available descriptor covers it, despite skipped and doubled marking |
| PageTree.FromValueIndex | Kernel/paging.hpp:19-46 | the four parts of an address, read as one number, are the page number of its low 48 bits |
| PageTree.WalkExact | Kernel/paging.hpp:19-70 | a walk is the processor's: four entries, picked by nine bits of the address each; it is writable, or open to applications, if all four are |
| PageGrowth.TablesDecide | Kernel/paging.cpp:61-96 | two memories that agree on the entries of a tree's tables hold the same tree with the same walks, whatever the frames of its pages hold |
| PageGrowth.Framed | Kernel/paging.cpp:61-96 | a tree whose frames are untouched keeps its shape and its walks |
| PageGrowth.GrownThroughChild | Kernel/paging.cpp:61-81 | when a child's tree grows by fresh frames only, the parent's tree does, and stays a tree of distinct frames |
| PageGrowth.MapsThroughChild | Kernel/paging.cpp:61-81 | the pages mapped below a child are the pages mapped in that slot of the parent; old pages keep their frames |
| PageGrowth.SlotsThroughChild | Kernel/paging.cpp:61-81 | slots outside the range stay as they were |
| PageGrowth.ProgressThroughChild | Kernel/paging.cpp:61-81 | what one recursive call achieves, also when it fails half way, counts as progress of the caller |
| PageGrowth.ProgressTransitive | Kernel/paging.cpp:62-90 | two rounds of the loop over adjacent ranges make one |
| Paging.Pager.NewPageMap | Kernel/paging.cpp:33-42 | a fresh, zeroed, marked frame, or failure with nothing changed and no frame free in range |
| Paging.Pager.SetNewPageMapIfNotPresent | Kernel/paging.cpp:44-59 | a present entry is left alone; else the entry points to a fresh zeroed table, and nothing else changes |
| Paging.Pager.OpenEntry | Kernel/paging.cpp:63-69 | the entry of the walk is present, writable and open to applications, and its child is a tree |
| Paging.Pager.NextEntry | Kernel/paging.cpp:86-89 | the carried address is the first page of the next entry |
| Paging.Pager.SetupEntry | Kernel/paging.cpp:63-80 | one round maps exactly the requested pages in the address's own entry |
| Paging.Pager.SetupPageMap | Kernel/paging.cpp:61-96 | exactly the old pages and the next min(n, pages to the end of the table) are mapped, old pages keep their frames and contents, all entries on the new walks are writable and user, the remainder is returned, and the tables stay a tree of distinct marked frames, also when memory runs out |
| Paging.Pager.SetupPageMaps | Kernel/paging.cpp:98-101 | the same from the PML4 |
| Paging.SuccessIsComplete | Kernel/paging.cpp:92-95 | success means that all n pages are mapped exactly if the range ends within the PML4 |
| Paging.LastPageExample | Kernel/paging.cpp:92-95 | of two pages from the last page on, one lies in the table and the other is no page |
| Paging.TwoPagesFromLast | Kernel/paging.cpp:61-101 | that request, made: it succeeds unless memory is exhausted, and no page but the last one can be new |
| PageTeardown.BelowAll | Kernel/paging.cpp:103-126 | the frames below all slots of a table are the frames of its tree but for the table itself |
| PageTeardown.SlotIntact | Kernel/paging.cpp:103-126 | while earlier slots are torn down, a later slot's subtree is untouched and still marked |
| PageTeardown.SlotRemoved | Kernel/paging.cpp:128-139 | after the subtree of one PML4 slot is gone, the rest is a tree with its old walks |
| PageTeardown.OneSlotGrown | Kernel/paging.cpp:98-101 | mapping within one slot that was empty adds frames to that slot only |
| Paging.Pager.CleanEntry | Kernel/paging.cpp:104-122 | frees every frame of the entry's subtree once and clears the entry |
| Paging.Pager.CleanPageMap | Kernel/paging.cpp:103-126 | frees every frame below the table exactly once, touches no other frame and clears the present entries |
| Paging.Pager.CleanPageMaps | Kernel/paging.cpp:128-139 | frees every frame of the slot's subtree exactly once; walks through other slots are unchanged, walks through this one end |
| Paging.Pager.SetupThenClean | Kernel/paging.cpp:98-139 | mapping in an empty slot and cleaning it restores the bitmap and every walk, also when mapping ran out of memory |
| Elf.WalkInjective | Kernel/elf.cpp:39-45 | two page numbers with the same frame are the same: pages do not alias |
| Elf.PageIsNoTable | Kernel/paging.cpp:33-42 | in a tree of distinct frames the frame of a page holds no table |
| Elf.StoreKeepsTree | Kernel/elf.cpp:44-45 | overwriting a page leaves every table and walk as it was, whatever its bytes would mean as a table |
| Elf.LoadAfterStore | Kernel/elf.cpp:44-45 | storing a byte through the page walk changes what is read at that address only |
| Elf.PageCountCovers | Kernel/elf.cpp:28-34 | the pages requested for a segment cover each of its bytes and lie in the page map |
| Elf.StoreByte | Kernel/elf.cpp:44-45 | a store through a writable walk is read back there, and nowhere else; all walks stay, although the frame stored into may mean anything as a table |
| Elf.MemCopy | Kernel/elf.cpp:44 | the range reads as the source, all else as before |
| Elf.MemZero | Kernel/elf.cpp:45 | the range reads as zeros, all else as before |
| Elf.LoadsKept | Kernel/elf.cpp:35-37 | mapping more pages changes no byte that could be read before |
| Elf.CopySegment | Kernel/elf.cpp:23-46 | a loaded segment reads as its file bytes and then zeros; other readable bytes are kept, also on failure |
| Elf.CopyLoadSegments | Kernel/elf.cpp:14-49 | after success every PT_LOAD segment reads as its file bytes and then zeros, also when two share a page; bytes outside all segments are kept |
| SchedulerInvariants.InitialInv | Kernel/task.cpp:97-109 | the first two tasks run at levels 3 and 0, the main task first, and the invariant holds |
| SchedulerInvariants.RotateInv | Kernel/task.cpp:120-143 | rotation keeps: running exactly if queued, once and at the own level, the current queue not empty, no higher queue in use unless the level flag is set |
| SchedulerInvariants.HighestLevelRuns | Kernel/task.cpp:145-155 | after every timer switch no running task has a higher level than the current one |
| SchedulerInvariants.SleepInv | Kernel/task.cpp:168-184 | Sleep keeps the invariant for every task but idle |
| SchedulerInvariants.SleepTopLevel | Kernel/task.cpp:175-181 | when the current task goes to sleep, the task chosen next has the highest level that runs |
| SchedulerInvariants.WakeupInv | Kernel/task.cpp:186-205 | Wakeup of a sleeping task keeps the invariant at any level |
| SchedulerInvariants.LevelChangeInv | Kernel/task.cpp:207-230 | a level change keeps the invariant under the guard |
| SchedulerInvariants.LevelChangeExact | Kernel/task.cpp:207-230 | and exactly then: otherwise a task is in two queues |
| SchedulerInvariants.LevelChangeExample | Kernel/task.cpp:207-230 | three calls after the start: a waiting task of level 1, woken again at level 2, is in both queues |
| SchedulerRuns.StepInv | Kernel/task.cpp:111-252 | every legal call keeps the invariant |
| SchedulerRuns.RunInv | Kernel/task.cpp:97-252 | it holds in every state of every run |
| SchedulerRuns.StepMail | Kernel/task.cpp:78-91 | what each call does to each mailbox; a task stops running only with an empty mailbox or by a plain Sleep, and a message wakes its receiver |
| SchedulerRuns.ExactlyOnceFifo | Kernel/task.cpp:78-91 | over every run, messages received followed by messages waiting are the messages sent, in order |
| SchedulerRuns.NoLostWakeup | Kernel/main.cpp:256-262 | when tasks sleep in their message loops only, a sleeping task has no message waiting |
| SchedulerRuns.TurnApproaches | Kernel/task.cpp:120-205 | a task in the current queue never falls back, and each rotation brings it one place nearer |
| SchedulerRuns.TurnComes | Kernel/task.cpp:120-205 | while it waits, rotations and its place never exceed the place it started from |
| SchedulerRuns.TurnWithinIndex | Kernel/task.cpp:120-205 | the task at index i gets its turn within i rotations under any other calls that leave it and the level alone |
| SchedulerEffects.TasksAfter | Kernel/task.cpp:111-252 | a call changes nothing of any task but who runs, a level that is given, and one mailbox; Wakeup and SendMessage without a level keep it, a new task sleeps at level 1 |
| SchedulerEffects.CurrentKept | Kernel/task.cpp:111-252 | no call but a timer switch and the running task's own Sleep changes which task is the running one, also when its level changes |
| SchedulerEffects.RunningTaskStays | Kernel/task.cpp:111-252 | so over every run the running task changes at those calls only |
| TaskManager.TaskManager.constructor | Kernel/task.cpp:97-109 | the new manager is in the initial state and satisfies the invariant |
| TaskManager.TaskManager.NewTask | Kernel/task.cpp:111-114 | adds a sleeping task with the next id |
| TaskManager.TaskManager.RotateRunQueue | Kernel/task.cpp:120-143 | the front task goes to the back or leaves, and the highest level in use is chosen if a change is due; the front task is returned |
| TaskManager.TaskManager.SwitchTask | Kernel/task.cpp:145-155 | a timer switch is a rotation; afterwards no running task has a higher level than the current one |
| TaskManager.TaskManager.Sleep | Kernel/task.cpp:168-184 | the state after Sleep, with the invariant kept; after the current task's own Sleep no running task has a higher level than the current one |
| TaskManager.TaskManager.Wakeup | Kernel/task.cpp:186-205 | the state after Wakeup; the invariant is kept exactly if the task slept or its level change meets the guard |
| TaskManager.TaskManager.ChangeLevelRunning | Kernel/task.cpp:207-230 | the state after a level change; the invariant is kept exactly under the guard |
| TaskManager.TaskManager.SendMessage | Kernel/task.cpp:157-166 | an unknown id is reported; else the message is appended and its receiver woken |
| TaskManager.TaskManager.ReceiveMessage | Kernel/task.cpp:83-91 | the oldest message leaves the mailbox, or there is none |
| TaskManager.TaskManager.SleepById | Kernel/task.cpp:232-241 | an unknown id is reported and changes nothing |
| TaskManager.TaskManager.WakeupById | Kernel/task.cpp:243-252 | an unknown id is reported and changes nothing; else as Wakeup, with the same exact condition |
| TimerManager.TimerManager.constructor | Kernel/timer.cpp:22-24 | the sentinel is queued and nothing reported |
| TimerManager.TimerManager.AddTimer | Kernel/timer.cpp:55-57 | the queue gains exactly that timer; a task timer sets the first tick of the signal |
| TimerManager.TimerManager.Top | Kernel/timer.hpp:46-48 | some timer with the smallest timeout |
| TimerManager.TimerManager.ReportUntilTaskTimer | Kernel/timer.cpp:30-50 | timers that have run out are reported and removed, earliest first, until none is left or the task timer is met |
| TimerManager.TimerManager.Tick | Kernel/timer.cpp:26-53 | the invariant of no early, lost or doubled report is kept; the signal is raised exactly when the task timer runs out, which then starts a new period; the record of raised signals grows by just that tick |
| TimerManager.TimerManager.ReportedInTime | Kernel/timer.cpp:26-53 | a timer due before this tick has been reported exactly once, at its tick or the next, despite the early break |
| TimerManager.PacedExactly | Kernel/timer.hpp:37-38 | signals a period apart from the first one on are at exactly the ticks that are a multiple of the period after it |
| TimerManager.TimerManager.SignalEveryPeriod | Kernel/timer.hpp:37-38 | after every run of Tick and AddTimer: a tick so far raised the signal exactly if it is the first timeout or a multiple of the period after it |
| PciTree.BusTreeDepth | Kernel/pci.cpp:87-97 | the first n entries of the depth-first preorder of a bus do not depend on how deep bridges are followed, as long as it is at least n - 1 |
| PciTree.FunctionTreeDepth | Kernel/pci.cpp:44-60 | the same for one function |
| PciTree.AllDevicesDepth | Kernel/pci.cpp:227-244 | the same for the list of all root buses |
| PciOrder.AllDevicesListed | Kernel/pci.cpp:44-97 | what the scan meets are the ends of all paths from the root buses through bridges, each path once, in the order of their numbers, a bridge before what lies behind it; functions 1 to 7 count exactly on multi-function devices |
| PciOrder.MetExactly | Kernel/pci.cpp:44-97 | a function is met if it can be reached through so many bridges, and only if it can be reached |
| PciScan.Scanner.AddDevice | Kernel/pci.cpp:29-37 | appends to the table, or reports that it is full |
| PciScan.Scanner.ScanFunction | Kernel/pci.cpp:44-60 | adds the function's preorder as far as the table has room, with kFull exactly if it does not fit |
| PciScan.Scanner.ScanDevice | Kernel/pci.cpp:65-82 | the same for a device's functions |
| PciScan.Scanner.ScanBus | Kernel/pci.cpp:87-97 | the same for a bus |
| PciScan.Scanner.ScanAllBus | Kernel/pci.cpp:227-244 | ends for every configuration space, cyclic bridges included; on success a function is in the table exactly if it is there and reached from a root bus through bridges; the table holds the ends of all paths in order, or of the first 32 and kFull, for every depth of at least 32 |
| TrbRingProofs.InitialInv | Kernel/usb/xhci/ring.cpp:13-29 | a cleared ring satisfies the ring invariant |
| TrbRingProofs.PollExact | Kernel/usb/xhci/ring.hpp:88-90 | the cycle test succeeds exactly when a complete TRB waits: no stale or half-written slot passes it |
| TrbRingProofs.FinishDelivers | Kernel/usb/xhci/ring.hpp:92-94 | a finished read is the oldest waiting TRB, unchanged |
| TrbRingProofs.LinkLeadsBack | Kernel/usb/xhci/trb.hpp:163-196 | a Link TRB, read as the controller reads it, leads to the ring's own address and toggles the cycle bit |
| TrbRingProofs.LinkFits | Kernel/usb/xhci/trb.hpp:163-196 | an address below 2^64 fits into its two dwords |
| TrbRingProofs.HandOverInv | Kernel/usb/xhci/ring.cpp:36-52 | the store of the last dword hands the slot over, Link TRBs and wraps included |
| TrbRingProofs.NextInv | Kernel/usb/xhci/ring.cpp:31-55 | every dword step of either side keeps the invariant |
| TrbRingProofs.RunRefinesFifo | Kernel/usb/xhci/ring.cpp:31-55 | over every interleaving, with a consumer that goes where Link TRBs point, TRBs taken followed by TRBs waiting are the TRBs pushed, in order, across every wrap |
| TrbRingProofs.RoomExact | Kernel/usb/xhci/ring.cpp:40-55 | there is room for a push, Links counted, exactly if none of the one or two slots that it writes is waiting |
| LateLink.DataCountIsNotEnough | Kernel/usb/xhci/ring.cpp:40-55 | a run of a ring of three slots leads to a state with size - 2 data TRBs waiting beside an unfollowed Link, where one more push hides them from the consumer |
| LateLink.ReachedInv | Kernel/usb/xhci/ring.cpp:31-55 | the invariant holds in every state that a run leads to |
| RingDriver.Ring.Initialize | Kernel/usb/xhci/ring.cpp:13-29 | a cleared buffer, index 0 and cycle bit set |
| RingDriver.Ring.CopyToLast | Kernel/usb/xhci/ring.cpp:31-38 | the slot at the index holds the TRB with the ring's cycle bit; other slots stay |
| RingDriver.Ring.Push | Kernel/usb/xhci/ring.cpp:40-55 | memory, index and cycle bit after a push; the position returned is the old index; on a wrap the Link TRB, with the old cycle bit, leads to the ring's address and toggles |
| RingDriver.PushIsItsStores | Kernel/usb/xhci/ring.cpp:31-55 | a push as one call equals its four or eight dword stores one by one, and appends the TRB to what was pushed |
| RingDriver.EventRing.Initialize | Kernel/usb/xhci/ring.cpp:57-94 | an empty event ring |
| RingDriver.EventRing.StartEvent | Kernel/usb/xhci/ring.hpp:88-90 | the controller starts an event: a step of the shared ring, after which the driver's view is still valid |
| RingDriver.EventRing.StoreEventDword | Kernel/usb/xhci/ring.hpp:88-90 | so is the store of each of its dwords, the one with the cycle bit last |
| RingDriver.EventRing.HasFront | Kernel/usb/xhci/ring.hpp:88-90 | true exactly if an event waits |
| RingDriver.EventRing.Pop | Kernel/usb/xhci/ring.cpp:102-115 | the next slot, with the cycle bit turned over at the end of the segment |
| RingDriver.EventRing.ProcessEvent | Kernel/usb/xhci/xhci.cpp:512-531 | the oldest event is handled and taken, also when its handler fails; nothing happens on an empty ring |
| RingDriver.EventRing.ProcessEvents | Kernel/usb/xhci/xhci.cpp:594-601 | every waiting event is handled once and in order, whatever the handlers return |
| RingDriver.TakenInv | Kernel/usb/xhci/ring.cpp:102-115 | taking an event is a step of the shared ring and delivers the oldest one |
| PortEnumerationProofs.ResetPortInv | Kernel/usb/xhci/xhci.cpp:91-113 | a port reset keeps the exclusive stage exclusive |
| PortEnumerationProofs.SlotBoundToAsker | Kernel/usb/xhci/xhci.cpp:230-241 | an Enable Slot completion binds its slot to the port that asked |
| PortEnumerationProofs.EventInv | Kernel/usb/xhci/xhci.cpp:197-284 | every event keeps: the addressing port is the only one between reset and address assignment, 0 means none, and at most one slot command is outstanding, issued for that port |
| PortEnumerationProofs.PhasesAdvance | Kernel/usb/xhci/xhci.cpp:25-46 | no event takes a port back to an earlier phase |
| PortEnumerationProofs.NoneForgottenExact | Kernel/usb/xhci/xhci.cpp:256-268 | a hand-over forgets the waiting ports exactly if the lowest of them is no longer connected |
| PortEnumerationProofs.ForgottenExample | Kernel/usb/xhci/xhci.cpp:256-268 | six events after the start: port 2 is unplugged, and port 3 waits with no port being addressed |
| PortEnumerationProofs.RunInv | Kernel/usb/xhci/xhci.cpp:91-284 | the invariant holds in every reachable state |
| PortEnumerationProofs.RunForgetsNone | Kernel/usb/xhci/xhci.cpp:256-268 | over every run in which the next port is connected at each hand-over, a waiting port implies that one is being addressed |
| PortEnumerationProofs.ChangesBounded | Kernel/usb/xhci/xhci.cpp:25-46 | a run of any length changes phases at most as often as the sum of phases, seven per port |
| PortProgress.RunServed | Kernel/usb/xhci/xhci.cpp:91-284 | over every run whose completions carry their own slot and port, a port that waits for a command has it outstanding, once, and every outstanding command is one that its port waits for |
| PortProgress.WaitingPortMoves | Kernel/usb/xhci/xhci.cpp:230-284 | the completion of that command succeeds and moves the port to the next phase, finally Configured |
| PortProgress.PortTaken | Kernel/usb/xhci/xhci.cpp:91-113 | a port seen connected for the first time waits exactly while another is being addressed, and else is reset |
| PortProgress.PortIssues | Kernel/usb/xhci/xhci.cpp:115-132 | the Enable Slot command is issued exactly for a resetting port that is enabled with its reset done, the Configure Endpoint command exactly for an initialising one whose device has become initialised at a known speed |
| PortProgress.ErrorsExact | Kernel/usb/xhci/xhci.cpp:197-284 | which events give which error |
| PortProgress.PortConfigured | Kernel/usb/xhci/xhci.cpp:197-284 | six events bring any port from the start to Configured, through any slot |
| XhciPorts.PortConfigurator.ResetPort | Kernel/usb/xhci/xhci.cpp:91-113 | the state and error after a reset: waits, starts, or does nothing for an empty port |
| XhciPorts.PortConfigurator.EnableSlot | Kernel/usb/xhci/xhci.cpp:115-132 | issues the command exactly for a port that is enabled with its reset done |
| XhciPorts.PortConfigurator.AddressDevice | Kernel/usb/xhci/xhci.cpp:134-167 | allocates the device and issues the command, or reports a bad slot |
| XhciPorts.PortConfigurator.ConfigurePort | Kernel/usb/xhci/xhci.cpp:440-445 | starts a port that has not been seen, with the invariant kept |
| XhciPorts.PortConfigurator.OnPortStatusChange | Kernel/usb/xhci/xhci.cpp:197-210 | the state after the event, with the invariant kept |
| XhciPorts.PortConfigurator.OnEnableSlotDone | Kernel/usb/xhci/xhci.cpp:230-241 | the state after the event, with the invariant kept |
| XhciPorts.PortConfigurator.OnAddressDeviceDone | Kernel/usb/xhci/xhci.cpp:242-268 | the state after the event, with the invariant kept |
| XhciPorts.PortConfigurator.HandOver | Kernel/usb/xhci/xhci.cpp:256-266 | the lowest waiting port is reset, if there is one |
| XhciPorts.PortConfigurator.OnConfigureEndpointDone | Kernel/usb/xhci/xhci.cpp:269-281 | the state after the event, with the invariant kept |
| XhciPorts.PortConfigurator.OnTransferEvent | Kernel/usb/xhci/xhci.cpp:212-228 | an initialised device moves its port on to endpoint configuration, with the invariant kept |
| ArrayMap.ArrayMap.Get | Kernel/usb/arraymap.hpp:16-23 | the value of the first entry with the key |
| ArrayMap.ArrayMap.Put | Kernel/usb/arraymap.hpp:25-33 | the first free entry is filled |
| ArrayMap.ArrayMap.Delete | Kernel/usb/arraymap.hpp:35-42 | the first entry with the key is freed |
| ArrayMap.PutNew | Kernel/usb/arraymap.hpp:25-33 | a new key with a free entry left changes the lookup of that key only, and keys stay distinct |
| ArrayMap.PutExact | Kernel/usb/arraymap.hpp:25-33 | in any table, keys repeated or not: a key can be looked up after Put exactly if it could before or an entry was free |
| ArrayMap.PutOthers | Kernel/usb/arraymap.hpp:25-33 | Put does not touch the lookup of other keys, in any table |
| ArrayMap.DeleteOthers | Kernel/usb/arraymap.hpp:35-42 | nor does Delete |
| ArrayMap.PutFull | Kernel/usb/arraymap.hpp:25-33 | a full table drops what is put into it |
| ArrayMap.DeleteOne | Kernel/usb/arraymap.hpp:35-42 | deleting a key changes the lookup of that key only and frees one entry |
| ControlTransfer.SetupRoundTrip | Kernel/usb/xhci/device.cpp:10-19 | a setup packet survives its TRB |
| ControlTransfer.IssuerRoundTrip | Kernel/usb/xhci/device.cpp:21-28 | a buffer survives its data stage TRB with its length cut to 17 bits, whole exactly if it is shorter than 128 KiB |
| ControlTransfer.WindowBound | Kernel/usb/xhci/device.cpp:107-152 | within the last 31 TRBs there are at most 15 outstanding transfers |
| ControlTransfer.RingStillHolds | Kernel/usb/xhci/ring.cpp:40-55 | a push within the window spares the stages of every outstanding transfer |
| ControlTransfer.MapTakes | Kernel/usb/xhci/device.cpp:138-146 | the map has room for a new transfer and no outstanding one has its key |
| ControlTransfer.MapReported | Kernel/usb/xhci/device.cpp:253-262 | deleting a reported transfer's key leaves the others |
| ControlTransfer.IssueTracked | Kernel/usb/xhci/device.cpp:107-199 | issuing inside the window: ring and map keep track of the new transfer and of all others |
| ControlTransfer.ReportTracked | Kernel/usb/xhci/device.cpp:253-262 | reporting one transfer ends it, and ring and map still keep track of all others |
| ControlStages.StagesRead | Kernel/usb/xhci/device.cpp:10-28 | for every request, the stages as the controller reads them: the packet's eight bytes, transfer type 3, 2 or 0 for data in, out or none, the data in the direction asked for, the status in the other one or in |
| ControlStages.OneInterrupt | Kernel/usb/xhci/device.cpp:129-146 | exactly the second stage, whose slot is filed, asks for an interrupt |
| ControlStages.PushedOnBus | Kernel/usb/xhci/ring.cpp:40-55 | once pushed, the ring reads so |
| ControlStages.NormalRead | Kernel/usb/xhci/device.cpp:215-224 | the TRB of an interrupt transfer, read back, has its buffer and asks for an interrupt, also on a short packet |
| ControlRuns.DecodesToReport | Kernel/usb/xhci/device.cpp:264-284 | a completion of a transfer whose stages are on the ring decodes to the request and the buffer that were issued |
| ControlRuns.KeyedLookup | Kernel/usb/xhci/device.cpp:138-146 | the key of an entry decides its value, also where a failed transfer's entry has the key of a later one |
| ControlRuns.AnswerExact | Kernel/usb/xhci/device.cpp:253-284 | the completion of a transfer on the ring is answered with its own request exactly if the map has its key |
| ControlRuns.AnswerErrors | Kernel/usb/xhci/device.cpp:243-285 | which completions are errors, and which |
| ControlRuns.BytesReported | Kernel/usb/xhci/device.cpp:264-279 | the length reported is the number of bytes that came |
| ControlRuns.JustIssued | Kernel/usb/xhci/device.cpp:107-152 | after a request the transfer is on the ring, and the map has its key exactly if it had it before or had a free entry |
| ControlRuns.StillIssued | Kernel/usb/xhci/device.cpp:107-285 | no other request inside the window and no other event changes that |
| ControlRuns.RunReportsExact | Kernel/usb/xhci/device.cpp:107-285 | over every run, failures, duplicate keys and a full map included: until the ring comes round, an unreported transfer is answered with its own request exactly if at issue the map had its key or a free entry |
| XhciDevice.Device.constructor | Kernel/usb/xhci/device.cpp:80-91 | no transfer outstanding and an empty map |
| XhciDevice.Device.PushStage | Kernel/usb/xhci/device.cpp:131-136 | the TRB follows the last one pushed, and every other slot but the Link keeps its TRB |
| XhciDevice.Device.IssueControl | Kernel/usb/xhci/device.cpp:107-199 | without a ring kTransferRingNotSet; else the controller reads the wanted stages from the ring, and the one that asks for an interrupt is the one filed; a step of the run model: the transfer is there, and the map has its key exactly if it had it before or had a free entry; within the window of 31 TRBs the transfer joins the outstanding ones |
| XhciDevice.Device.OnTransferEventReceived | Kernel/usb/xhci/device.cpp:235-285 | a step of the run model; the completion of any transfer on the ring is answered with its request, buffer and length exactly if the map has its key, which is so for all outstanding ones; the errors for everything else |
| XhciDevice.InterruptIn | Kernel/usb/xhci/device.cpp:201-226 | without a ring kTransferRingNotSet; else one Normal TRB with the buffer is pushed |
| XhciDevice.InterruptReported | Kernel/usb/xhci/device.cpp:246-251 | its completion is answered with its buffer and the number of bytes that came |
| XhciDevice.SixteenFailures | Kernel/usb/xhci/device.cpp:238-259 | sixteen transfers that fail with any codes fill the map, and the next, successful one is reported as kNoCorrespondingSetupStage |
| Graphics.AndIsIntersection | Kernel/graphics.hpp:73-85 | `&` holds exactly the points of both rectangles, for any sizes |
| FrameBuffer.FrameBuffer.Initialize | Kernel/frame_buffer.cpp:41-69 | a buffer of its own without padding |
| FrameBuffer.FrameBuffer.InitializeGiven | Kernel/frame_buffer.cpp:41-69 | the memory of a device, with padded scan lines |
| FrameBuffer.FrameBuffer.Write | Kernel/graphics.hpp:111-121 | one pixel changes, the cell at scan line times stride plus column |
| FrameBuffer.BlitPixels | Kernel/frame_buffer.cpp:91-95 | copying n cells within one row changes those n pixels of that row |
| FrameBuffer.FrameBuffer.CopyRow | Kernel/frame_buffer.cpp:92 | n cells become the source's, also within one buffer when the two do not overlap |
| FrameBuffer.FrameBuffer.CopyRows | Kernel/frame_buffer.cpp:87-95 | the rows of the area come from the shifted source |
| FrameBuffer.CopiedIsRowsCopied | Kernel/frame_buffer.cpp:81-84 | the area copied is the meeting of the shifted area with both buffers |
| FrameBuffer.CopiedExact | Kernel/frame_buffer.cpp:71-98 | a block transfer brings the pixel at each offset in the source area to the same offset in the target, and nothing else |
| FrameBuffer.CopyableExact | Kernel/frame_buffer.cpp:88-95 | no row of a negative number of bytes is copied exactly if the area has no negative width or no positive height |
| FrameBuffer.OnScreenCopyArea | Kernel/frame_buffer.cpp:81-85 | a rectangle between two corners on the screen is copied as it is, of negative size or not |
| FrameBuffer.NegativeRowsExample | Kernel/layer.cpp:114-135 | an unset area of width -5 and height 10 gives ten rows of -20 bytes |
| FrameBuffer.FrameBuffer.Copy | Kernel/frame_buffer.cpp:71-98 | a pixel comes from the source exactly where the shifted area and both buffers hold it, all others stay, for any area that gives no row of a negative length; different formats give an error and no change; the padding of scan lines is kept |
| FrameBuffer.MoveStep | Kernel/frame_buffer.cpp:104-122 | a row next to those already moved still has its old source, and its copy does not overlap it |
| FrameBuffer.MovedExact | Kernel/frame_buffer.cpp:100-123 | and so does a move |
| FrameBuffer.FrameBuffer.MoveUp | Kernel/frame_buffer.cpp:104-112 | the rows are moved from the top down |
| FrameBuffer.FrameBuffer.MoveDown | Kernel/frame_buffer.cpp:113-122 | the rows are moved from the bottom up |
| FrameBuffer.FrameBuffer.Move | Kernel/frame_buffer.cpp:100-123 | equals moving all pixels of the rectangle at once, for any overlap that does not copy a row onto a part of itself; the padding of scan lines is kept |
| Window.Window.constructor | Kernel/window.cpp:27-45 | a solid window with buffers of its own |
| Window.Window.Write | Kernel/window.cpp:81-85 | data and shadow buffer change at that pixel only |
| Window.Window.WriteAll | Kernel/window.cpp:81-85 | a series of writes, in order |
| Window.WrittenExact | Kernel/window.cpp:81-85 | after it a pixel has the colour of the last write there, or its old one |
| Window.Window.Move | Kernel/window.cpp:92-95 | moves the shadow buffer and leaves the data; at every position the window then shows the move exactly if it is solid or the move changes no pixel of the data |
| Window.ClearMoveExact | Kernel/window.cpp:60-78 | a clear window shows a move exactly if every target pixel has its source's colour already |
| Window.ClearMoveExample | Kernel/window.cpp:92-95 | a clear window of two pixels of different colours does not |
| Window.ViewPoint | Kernel/window.cpp:47-79 | a window at a position shows its pixel at each offset there, a clear one unless it is transparent |
| Window.CopyPaints | Kernel/window.cpp:49-57 | copying the intersection paints the damaged part of a solid window |
| Window.Window.DrawTo | Kernel/window.cpp:47-79 | paints the damaged part of a solid window, all visible pixels of a clear one, and nothing else |
| Compositor.PaintedInside | Kernel/layer.cpp:102-108 | inside the damaged area drawing all layers gives the painter's composite, whatever was there |
| Compositor.PaintedOutside | Kernel/window.cpp:60-78 | outside it a point ends as the topmost clear layer there, seen or not |
| Compositor.SeenTopmost | Kernel/layer.cpp:102-105 | what is seen at a point is what the highest view that shows something there shows |
| Compositor.OutsideCleanExact | Kernel/window.cpp:60-78 | a clean point outside stays clean exactly if no clear layer, or one of the same colour, is drawn there |
| Compositor.ClearBelowFails | Kernel/window.cpp:60-78 | three layers for which a redraw elsewhere spoils a clean point |
| Compositor.DrawnClean | Kernel/layer.cpp:114-135 | redrawing from a layer up cleans its own points in the area and keeps clean points clean |
| Compositor.SeenReplaced | Kernel/layer.cpp:83-92 | a layer that shows nothing at a point, before and after, does not matter there |
| Compositor.SeenInserted | Kernel/layer.cpp:151-176 | nor does its place in the stack |
| Compositor.FullDrawCleans | Kernel/main.cpp:224 | drawing the whole screen makes it the composite from any state |
| Compositor.ChangeRestoresComposite | Kernel/layer.cpp:88-90 | after a layer changed, redrawing the rectangle it left and then the layer restores the composite everywhere |
| Compositor.DrawRestoresComposite | Kernel/layer.cpp:114-135 | redrawing a layer restores the composite if only its own points were wrong |
| Compositor.PartRestoresComposite | Kernel/layer.cpp:114-135 | redrawing part of a layer does, if only its own points inside that part were wrong |
| Compositor.CopyKeepsComposite | Kernel/layer.cpp:134 | copying any area of a clean back buffer to the screen changes nothing |
| LayerManager.DrawFrom | Kernel/layer.cpp:102-105 | draws the layers from one up, bottom first |
| LayerManager.LayerManager.SetWriter | Kernel/layer.cpp:57-63 | a back buffer of the screen's size and format |
| LayerManager.LayerManager.NewLayer | Kernel/layer.cpp:65-68 | a layer with the next id, not on the stack |
| LayerManager.LayerManager.FindLayer | Kernel/layer.cpp:70-81 | the layer with the id, or none exactly if there is none |
| LayerManager.LayerManager.Draw | Kernel/layer.cpp:102-108 | both buffers after a redraw of an area |
| LayerManager.LayerManager.DrawLayerArea | Kernel/layer.cpp:114-135 | both buffers after a redraw of a layer, or the given part of it, and what lies above; a point of the screen changes only inside the window and, in its coordinates, inside that part, and there to the topmost of what is drawn; for an id that is not on the stack the unset area is copied and nothing drawn |
| LayerManager.LayerManager.DrawPart | Kernel/terminal.cpp:454-474 | if every point is clean but some of the layer's own inside the given part, in window coordinates, both buffers are the composite afterwards |
| LayerManager.LayerManager.DrawLayer | Kernel/layer.cpp:110-112 | the same for the whole layer |
| LayerManager.LayerManager.Move | Kernel/layer.cpp:83-92 | the layer's view moves, and if both buffers were the composite they are again; a layer off the stack too, unless the unset area gives rows of a negative length |
| LayerManager.LayerManager.MoveRelative | Kernel/layer.cpp:94-100 | the position changes by the difference, with the composite kept |
| LayerManager.LayerManager.GetHeight | Kernel/layer.cpp:202-210 | the first height with the id, or -1 exactly if there is none |
| LayerManager.LayerManager.Hide | Kernel/layer.cpp:137-143 | the stack without the layer |
| LayerManager.LayerManager.UpDown | Kernel/layer.cpp:151-176 | the layer is taken out and put in at the height, as far as there are layers below; a negative height hides it |
| LayerManager.PlacedExact | Kernel/layer.cpp:151-176 | the layer stands at the height given, or on top, and all others keep their order |
| ActiveLayer.RaisedBelow | Kernel/layer.cpp:273 | a layer from below the mouse ends directly below it, and all from the mouse up keep their places |
| ActiveLayer.PlacedUnderOne | Kernel/layer.cpp:273 | any other layer ends with one layer between it and the mouse |
| ActiveLayer.JustBelowExact | Kernel/layer.cpp:273 | activating a layer puts it directly below the mouse exactly if it was on the stack below the mouse |
| ActiveLayer.NewWindowExample | Kernel/terminal.cpp:432 | a new terminal ends below the one open window |
| ActiveLayer.PlacedViews | Kernel/layer.cpp:151-176 | a restacked layer changes the look of the stack only where it shows something |
| ActiveLayer.Decorate | Kernel/layer.cpp:263-265 | new contents of a window make at most its own points wrong |
| ActiveLayer.ActiveLayer.Refresh | Kernel/layer.cpp:266 | drawing that layer then restores the composite |
| ActiveLayer.ActiveLayer.PlaceAndDraw | Kernel/layer.cpp:273-274 | restacking a layer, or adding it, and drawing it restores the composite |
| ActiveLayer.ActiveLayer.Activate | Kernel/layer.cpp:258-276 | both windows get their new looks, the new one is put in at one less than the mouse's height, and the composite is kept |
| Fat.NextAsSpecified | Kernel/fat.cpp:40-54 | the link is read from the four bytes of the cluster's entry in the first table, lowest first, and is what the FAT32 specification says exactly if the reserved bits are clear or the chain ends anyway |
| Fat.ClustersDisjoint | Kernel/fat.cpp:15-24 | clusters follow each other without gap or overlap |
| Fat.DataAfterFats | Kernel/fat.cpp:15-24 | cluster 2 starts where the last copy of the table ends |
| Fat.LoadFile | Kernel/fat.cpp:75-97 | ends for every chain, cyclic ones included; the buffer begins with what was loaded and is unchanged after it |
| Fat.LoadedIsPrefix | Kernel/fat.cpp:86-96 | what is loaded is the concatenation of the chain's clusters cut at the length |
| ShortNames.TrimmedZero | Kernel/fat.cpp:105-110 | blanking trailing spaces leaves a zero exactly if there was one or the last byte was a space |
| ShortNames.NameRoundTrip | Kernel/fat.cpp:99-118 | a base and an extension, padded with spaces as the volume stores them, read back as the base, a dot and the extension, or as the base alone |
| ShortNames.BuiltExact | Kernel/fat.cpp:99-118 | the string built from an entry is its 8.3 name, whatever lies on the stack, exactly if both parts are closed |
| ShortNames.ClosedExact | Kernel/fat.cpp:99-110 | they are closed exactly if neither fills its field |
| ShortNames.ReadExact | Kernel/fat.cpp:99-118 | the strings that an entry can be taken for on some stack: a full part reads as any string that it begins |
| ShortNames.FullName | Kernel/fat.cpp:99-118 | an 8-letter name without extension reads as itself and what follows it on the stack |
| ShortNames.FullNameExample | Kernel/fat.cpp:99-118 | with an A behind it, the entry WINHELLO is taken for WINHELLOA |
| ShortNames.BlankTrailing | Kernel/fat.cpp:105-110 | trailing spaces become zeros |
| ShortNames.ReadName | Kernel/fat.cpp:26-38 | both parts are the padded fields as C strings |
| ShortNames.NameIsEqual | Kernel/fat.cpp:99-118 | true exactly if the string built from the entry and the stack is the given one; for a closed entry exactly if its 8.3 name, with a dot only before an extension, is |
| FatDirectory.FindFile | Kernel/fat.cpp:56-73 | on every stack, the first entry in chain order that is taken for the name, or none exactly if no entry is |
| FatDirectory.SearchExact | Kernel/fat.cpp:56-73 | that entry is the first with the 8.3 name, on every stack, exactly if its name is closed and no entry before it can be taken for the name |
| FatDirectory.ClosedSearch | Kernel/fat.cpp:56-73 | so it is where all entries up to it are closed |
| FatDirectory.EntryOffsets | Kernel/fat.cpp:61-66 | the entries of a cluster are its consecutive 32-byte blocks, and their names the first 11 bytes of each |
| FatDirectory.StopsExact | Kernel/fat.cpp:61-70 | the search ends exactly if it ends within as many clusters as the image has bytes |
| FatDirectory.StopsIfEndsOrMatches | Kernel/fat.cpp:61-70 | it ends exactly if the chain ends or an entry on it matches |
| FatDirectory.CycleNeverStops | Kernel/fat.cpp:61-70 | on a chain that lies on a cycle or leads into one, without the name, it never ends |

## Left out

- `SetupPageMaps` in the kernel half: its 2 MiB entries are not tables, and the code never maps there.
- `Terminal::ExecuteFile`: it maps stack and arguments in PML4 slot 511 but cleans only the slot of the first load address, and not on every error return.
- `InitializeHeap`, `GetFirstLoadAddress`, `MakeArgVector` and the shell: only easy members or user interface.
- Task contexts, stacks, interrupts and segments: hardware.
- Interrupt races on calls made with interrupts on: calls are taken as atomic.
- Register access, doorbells, MSI, controller and EHCI set-up: input and output.
- `ConfigureEndpoints` and the context structures: the command is modelled, the fields it writes are not.
- `usb::Device` initialisation and the HID drivers: a transfer event says whether the device has become initialised.
- Control endpoints other than the default one: they would share the map with keys from other rings; the endpoint number check is not modelled either.
- `ControlIn` and `ControlOut` apart: one method with a direction stands for both, which differ in nothing else.
- LayerManager.LayerManager.DrawLayerArea: does not model a given area with one negative size, nor an unset area that gives rows of a negative length, for which `memcpy` is undefined.
- LayerManager.LayerManager.UpDown: does not model a non-negative height for an unknown id, for which the code puts a null layer on the stack.
- ActiveLayer.ActiveLayer.Activate: needs the mouse layer on the stack and above height 0; else the code hides the layer and draws an area that was never set.
- `FindLayerByPosition`, dragging and the mouse: user interface.
- FrameBuffer.FrameBuffer.Move: does not model a move within one row onto an overlapping part, for which `memcpy` is undefined.
- FrameBuffer.FrameBuffer.MoveDown: leaves out the same moves.
- Window.Window.Move: leaves out the same moves.
- FrameBuffer.FrameBuffer.Initialize: does not model a number that is no pixel format; the format is one of the two that exist.
- MemoryMap.InitializeMemoryManager: stops before `InitializeHeap`, which takes frames through `Allocate`.
- Paging.Pager.CleanPageMaps: needs the slot to be present; else the code takes physical address 0 for a table.
- TimerManager.TimerManager.AddTimer: needs the task timer to be added only once, as the kernel does; two of them would share one signal.
- RingDriver.Ring.Initialize: does not model a failed memory allocation, which gives kNoEnoughMemory.
- RingDriver.EventRing.Initialize: does not model failed memory allocations, nor the segment table and the registers that name the ring.
- ShortNames.NameIsEqual: does not model the 13 bytes that the built string is stored in; a longer one is compared whole.
- FatDirectory.FindFile: needs a chain on which the search ends (`FatDirectory.StopsExact`); an entry met twice on a cyclic chain has the same bytes behind it each time.
- Fields of the boot sector are given, not decoded; attributes, dates and long names of directory entries are not modelled.
- Byte orders and the reserved byte of a pixel: a cell is one colour. Fonts, the console and logging: user interface.
