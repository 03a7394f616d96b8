# Kernel machinery of ring3k, in Dafny

This project models six pieces of the ring3k user-mode kernel and proves what they keep over every
run, every input or every picture:

- the I/O completion port (`Completion*.dfy`): packets, waiting threads and the list of ports with
  waiters to wake, together with the run-list bookkeeping of threads that decides when the kernel is idle;
- the first-fit bitmap allocator (`AllocBitmap.dfy`, `AllocRuns.dfy`, `BitmapAllocator.dfy`);
- the fiber run ring (`FiberSchedule.dfy`, `FiberLinks.dfy`, `FiberRing.dfy`);
- memory blocks over a backing store (`MemoryBlocks.dfy`, `MemoryBlockObjects.dfy`);
- the raster code (`PixelStore.dfy`, `Blit.dfy`, `BitmapObject.dfy`, `Lines.dfy`, `WideLines.dfy`,
  `WideLineExact.dfy`);
- the number printer and path builder of the client stub (`NumberText.dfy`).

`Common.dfy` holds what several of them need.

For each piece the state and its operations are first given on values, where runs are sequences of
events and the results about runs are lemmas. Objects that the source updates in place are classes
whose methods are proved to do exactly what the operation on values says. A failed assert of the
source is an outcome of the model (`Abort`, `Refused`, `None`, `ok == false`), not a precondition,
except where the assert checks what a caller must bring.

`dafny verify dfyconfig.toml` checks the whole project.

## What turned out different from what one would expect

- Completion ports: a listed port can have a waiter and no packet, for two reasons. A thread that takes
  the last packet directly does not take the port off the list (`ListedPortCanStarve`), and start_waiter
  takes it off only with its last waiter (kernel/completion.cpp:239), not with its last packet
  (`ServedPortCanStarve`); `StarvesExactly` says exactly which steps do this. When the last running
  thread then stops, the assert in start_waiter fails; `AbortsExactly` says exactly when. The assert
  that the queue is empty again (kernel/completion.cpp:224) can fail too (`QueueCanBeLeftOver`).
- Concurrency limit: restarting a waiter puts its fiber on the ring (kernel/fiber.cpp:132-139), but the
  thread counts as active only when it runs (kernel/thread.cpp:1079-1084). Several packets posted in
  between restart several waiters, so the limit can be exceeded (`LimitCanBeExceeded`);
  `ActiveWithinExactly` says exactly when the active count stays within a bound, whichever of the
  restarted threads run.
- Allocator: lengths above 2^32 - 12 wrap around in the size computation and get a block that is too
  small or shared (`RequiredExactly`, `WrappedBlocksOverlap`); such a block, and nothing else that passes
  the asserts, breaks the invariant (`AllocKeepsExactly`, `RunGoesOnExactly`). A run of bits
  that ends at the last bit is refused, so that bit is never set (`LastBitClear`).
- Fibers: stop by the only runnable fiber leaves it running off the ring, with `last_fiber` true and no
  runnable fiber (`StopByTheOnlyFiber`); `LastFiberExactly` says exactly when `last_fiber` means that
  one fiber is runnable. A later start repairs this. The model has that state (`detached`).
- Memory blocks: a split takes two references and each block gives up one, so a store that was ever split
  is never deleted (`StoreDeletedExactly`).
- Bitmaps of one bit per pixel with width modulo 16 between 1 and 7 have rows that are too short
  (`LastPixelAliases`, `NoAliasExactly`). A copy within one bitmap can read what it has just written
  (`SpoiledPixel`, `InPlaceExactly`). `pen_dot` exchanges its coordinates
  (kernel/bitmap.cpp:234); the line results are about the points given to it. `line_wide` with a pen of
  width 0 or 1 sets the whole left column (`ThinSetsColumn`); `SoundExactly` says on which segments that leaves the line, and `DrawsTheBand` that a wider pen
  sets exactly the points it should.

## Model

| member | source | states |
|---|---|---|
| `Completion.StepKeeps` | kernel/completion.cpp:179-277 | every step that passes its asserts keeps the invariant: a port with a packet and a waiter is listed, a listed port has a waiter and is listed once, no thread is in two places, and when nothing runs or is about to run no port is listed |
| `Completion.SetKeeps` | kernel/completion.cpp:203-225 | posting a packet keeps the invariant, whichever of its three branches it takes |
| `Completion.TakeKeeps` | kernel/completion.cpp:246-288 | remove keeps the invariant, whether it blocks on an empty queue, blocks because the system is busy, or takes the packet directly |
| `Completion.StartWaiterKeeps` | kernel/completion.cpp:227-244 | start_waiter keeps the list sound: the port leaves it exactly when its last waiter goes, the other ports stay, and the first waiter becomes a restarted thread that holds the first packet |
| `Completion.CheckKeeps` | kernel/completion.cpp:179-194 | check_completions leaves no listed port unserved when nothing runs |
| `Completion.LeaveKeeps` | kernel/thread.cpp:242-270 | the last thread to stop running looks for a completion, so nothing is left hanging |
| `Completion.BlockKeeps` | kernel/completion.cpp:83-91 | blocking on a port keeps the invariant, including the check_completions that the stop of the last running thread makes |
| `Completion.AbortsExactly` | kernel/completion.cpp:187-244 | exactly which steps fail an assert, told from the state before: the assert that check_waiters finds a waiter never fails, no thread is asked to restart itself, and only "a packet is queued" and "the queue is empty afterwards" can fail |
| `Completion.BlockAborts` | kernel/completion.cpp:246-270 | a thread that blocks aborts the kernel exactly when it was the last one running and the first listed port has no packet |
| `Completion.Run` | kernel/completion.cpp:179-288 | every world that any run over any number of ports and threads reaches satisfies the invariant |
| `Completion.IdleKernelHasNoWork` | kernel/thread.cpp:267-269 | over every run, when no thread runs or is about to, no port holds both a packet and a waiter |
| `CompletionRuns.PacketsAreConserved` | kernel/completion.cpp:203-288 | over every run: the packets posted to a port are those handed out, in that order, followed by the queue; the calls of remove by a thread returned exactly what was handed to it; the threads that blocked on a port are those restarted, in that order, followed by the waiters |
| `CompletionRuns.StepBooks` | kernel/completion.cpp:203-288 | each step moves packets and threads along without making, dropping or reordering any |
| `CompletionDrain.ChecksDrain` | kernel/completion.cpp:179-244 | if the first listed port has n packets and n waiters or more, n calls of check_completions give its i-th packet to its i-th waiter, and serving the last one takes the port off the list |
| `CompletionDrain.DrainsExactly` | kernel/completion.cpp:179-244 | as many calls of check_completions as threads wait on listed ports pass every assert exactly when every listed port has a packet for each of its waiters; then the i-th waiter of each port has its i-th packet, no other thread got any, and no port is listed |
| `CompletionDrain.SupplyServesAll` | kernel/completion.cpp:179-244 | the first half of that, port after port in the order of the list |
| `CompletionDrain.ShortageAborts` | kernel/completion.cpp:227-232 | the other half: a listed port that is short of packets makes the calls fail an assert |
| `CompletionRuns.ListIsFifo` | kernel/completion.cpp:196-201 | ports are served in the order they were listed: a step adds at most one port at the end, removes at most one that has no waiter left, and moves none |
| `CompletionRuns.StepLoad` | kernel/thread.cpp:206-223 | the exact effect of every step on the number of threads that run or were restarted |
| `CompletionRuns.WithinExactly` | kernel/completion.cpp:214-223 | the number of threads that run or were restarted stays within a bound exactly when no restart happens with the bound already reached |
| `CompletionRuns.SettlesExactly` | kernel/thread.cpp:1079-1084 | the active count stays within a bound whichever restarted threads run next exactly when running and restarted threads together are within it |
| `CompletionRuns.ActiveWithinExactly` | kernel/completion.cpp:214-223 | the concurrency limit: at every point of a run, whichever restarted threads run there, the active count is within a bound, exactly when no event restarts a waiter with the bound already reached by running and restarted threads |
| `CompletionRuns.PromptRunsKeepTheLimit` | kernel/completion.cpp:203-276 | the concurrency limit holds on runs in which every restarted thread runs before the next restart and check_completions is called below the limit |
| `CompletionRuns.EveryoneReturns` | kernel/thread.cpp:1079-1084 | restarted threads can all run next and then count as active, so the load is reached by the active count |
| `CompletionRuns.StarvesExactly` | kernel/completion.cpp:227-276 | a step leaves a listed port without a packet exactly when it takes its last packet and leaves a waiter: a direct take, or check_completions serving one of several waiters |
| `CompletionCases.ListedPortCanStarve` | kernel/completion.cpp:271-276 | a run from the start in which a thread takes the packet of a listed port directly, after which the last running thread cannot stop without aborting the kernel |
| `CompletionCases.ServedPortCanStarve` | kernel/completion.cpp:227-244 | the same from the start without a direct take: start_waiter serves one of two waiters with the only packet |
| `CompletionCases.QueueCanBeLeftOver` | kernel/completion.cpp:214-224 | a run from the start after which posting a packet fails the assert that the queue is empty |
| `CompletionCases.LimitCanBeExceeded` | kernel/completion.cpp:214-223 | a run from the start that has one active thread before two packets are posted to a port limited to two, and three when the restarted threads have run |
| `CompletionPorts.Kernel.CheckCompletions` | kernel/completion.cpp:179-185 | does to the objects what the model says, on all ports at once |
| `CompletionPorts.Kernel.Leave` | kernel/thread.cpp:242-270 | takes a thread off the run list and calls check_completions when it was the last |
| `CompletionPorts.Kernel.Resume` | kernel/completion.cpp:280-287 | a restarted thread counts as active again and returns the packet it was given |
| `CompletionPorts.CompletionPort.constructor` | kernel/completion.cpp:300-309 | a port is made with a limit of at least one, empty |
| `CompletionPorts.CompletionPort.PortWaitIdle` | kernel/completion.cpp:196-201 | lists the port at the end unless it is listed |
| `CompletionPorts.CompletionPort.StartWaiter` | kernel/completion.cpp:227-244 | hands the first packet to the first waiter and takes the port off the list with its last waiter; refuses when there is no packet |
| `CompletionPorts.CompletionPort.CheckWaiters` | kernel/completion.cpp:187-194 | serves the first waiter, and refuses when there is none |
| `CompletionPorts.CompletionPort.Set` | kernel/completion.cpp:203-225 | posts a packet; refuses exactly when the model aborts, and otherwise keeps the invariant over all ports |
| `CompletionPorts.CompletionPort.Stop` | kernel/completion.cpp:83-91 | queues the thread behind the other waiters and stops it |
| `CompletionPorts.CompletionPort.Remove` | kernel/completion.cpp:246-288 | returns the first packet, or blocks; keeps the invariant over all ports |
| `AllocBitmap.RequiredExactly` | kernel/alloc_bitmap.cpp:85-95 | the granules looked for hold header and block, with less than one to spare, exactly when the length is below 2^32 - 11; for longer ones, how many granules remain after the wrap |
| `AllocBitmap.WordRoundTrip` | kernel/alloc_bitmap.cpp:109-110 | the length stored in the header is read back, and no other byte changes |
| `AllocBitmap.WordLayout` | kernel/alloc_bitmap.cpp:109-110 | the header holds the length with its least significant byte first |
| `AllocBitmap.AllocExactly` | kernel/alloc_bitmap.cpp:90-124 | alloc returns NULL exactly when no run of clear bits is long enough, fails its assert exactly when the first such run ends with the area, and otherwise takes that run |
| `AllocBitmap.AllocTakes` | kernel/alloc_bitmap.cpp:104-112 | it then sets exactly the bits of the run, writes the length into the header and changes no other byte |
| `AllocBitmap.FreeExactly` | kernel/alloc_bitmap.cpp:126-155 | free passes its asserts exactly on a pointer behind a header in the area whose length tells of bits that are all set and end before the last |
| `AllocBitmap.FreeClears` | kernel/alloc_bitmap.cpp:135-155 | it then clears those bits and no others |
| `AllocBitmap.FirstFit` | kernel/alloc_bitmap.cpp:90-124 | the result is the least index at which the run of clear bits starts, and none exactly when there is no such run |
| `AllocBitmap.OnesFill` | kernel/alloc_bitmap.cpp:71-83 | setting or clearing a run of equal bits changes the number of set bits by its length |
| `AllocRuns.FitIsDisjoint` | kernel/alloc_bitmap.cpp:97-112 | a run of clear bits touches no live block |
| `AllocRuns.LastBitClear` | kernel/alloc_bitmap.cpp:71-76 | in every reachable area the last bit is clear |
| `AllocRuns.AllocKeepsExactly` | kernel/alloc_bitmap.cpp:85-124 | for every length a size_t can hold, a block that alloc returns keeps live blocks disjoint and inside the area, their headers intact, the bits exact and the count right, exactly when the length is below 2^32 - 11 |
| `AllocRuns.FreeIsExact` | kernel/alloc_bitmap.cpp:126-155 | free of a live block passes every assert and clears exactly the bits of that block |
| `AllocRuns.DoubleFreeRefused` | kernel/alloc_bitmap.cpp:146-149 | free of a block that was just freed fails an assert |
| `AllocRuns.FreeKeeps` | kernel/alloc_bitmap.cpp:126-155 | free of a live block keeps all of that for the blocks that remain |
| `AllocRuns.StoreKeeps` | kernel/alloc_bitmap.cpp:109-112 | a client that writes inside its own block harms no header |
| `AllocRuns.Step` | kernel/alloc_bitmap.cpp:90-155 | allocations of every length, releases and stores: the invariant survives exactly the events that hand out no block for a length that wraps around, and only the end-of-area assert can fail |
| `AllocRuns.Run` | kernel/alloc_bitmap.cpp:90-155 | the invariant holds in every area that a run of allocations, releases and stores reaches without handing out such a block |
| `AllocRuns.RunGoesOnExactly` | kernel/alloc_bitmap.cpp:90-155 | a run goes on through its next event exactly when the asserts pass and the invariant survives |
| `AllocRuns.FreshIsInv` | kernel/alloc_bitmap.cpp:41-49 | it holds after set_area, which gives all bits clear, a multiple of eight, and as many as fit the area |
| `AllocRuns.PayloadKept` | kernel/alloc_bitmap.cpp:90-155 | allocations, releases and stores to other blocks leave every byte of a live block alone |
| `AllocRuns.AllFreed` | kernel/alloc_bitmap.cpp:219-225 | once every block is freed every bit is clear |
| `AllocRuns.WrappedBlocksOverlap` | kernel/alloc_bitmap.cpp:85-95 | two requests of 2^32 - 5 bytes are given the same block |
| `BitmapAllocator.UnpackSet` | kernel/alloc_bitmap.h:37 | setting a bit of the packed bytes sets that bit and no other |
| `BitmapAllocator.UnpackClear` | kernel/alloc_bitmap.h:38 | clearing a bit of the packed bytes clears that bit and no other |
| `BitmapAllocator.AllocationBitmap.constructor` | kernel/alloc_bitmap.cpp:32-49 | an area of whole bytes of bits, all clear |
| `BitmapAllocator.AllocationBitmap.BitValue` | kernel/alloc_bitmap.h:36 | reads a bit of the packed bytes |
| `BitmapAllocator.AllocationBitmap.SetBit` | kernel/alloc_bitmap.h:37 | sets one bit |
| `BitmapAllocator.AllocationBitmap.ClearBit` | kernel/alloc_bitmap.h:38 | clears one bit |
| `BitmapAllocator.AllocationBitmap.CountBits` | kernel/alloc_bitmap.cpp:51-69 | the length of the run of equal bits from a position on, cut off at a maximum and at the end |
| `BitmapAllocator.AllocationBitmap.SetBits` | kernel/alloc_bitmap.cpp:71-76 | sets a run of bits, and refuses one that reaches the last bit |
| `BitmapAllocator.AllocationBitmap.ClearBits` | kernel/alloc_bitmap.cpp:78-83 | clears a run of bits, and refuses one that reaches the last bit |
| `BitmapAllocator.AllocationBitmap.FindRun` | kernel/alloc_bitmap.cpp:97-123 | the loop ends, trips no assert, and finds exactly the first fit |
| `BitmapAllocator.AllocationBitmap.Claim` | kernel/alloc_bitmap.cpp:104-112 | marks the run and writes the header |
| `BitmapAllocator.AllocationBitmap.Alloc` | kernel/alloc_bitmap.cpp:90-124 | NULL exactly when no run of clear bits is long enough, refusal exactly when the first such run ends with the area, otherwise the block of that run |
| `BitmapAllocator.AllocationBitmap.FreeSized` | kernel/alloc_bitmap.cpp:135-155 | clears what the header says, and refuses a length that is not the header's |
| `BitmapAllocator.AllocationBitmap.Free` | kernel/alloc_bitmap.cpp:126-133 | refuses exactly the pointers the asserts refuse, and otherwise clears what the header says |
| `BitmapAllocator.AllocationBitmap.FreeLive` | kernel/alloc_bitmap.cpp:126-155 | on a live block of a reachable area nothing is refused and exactly that block goes |
| `BitmapAllocator.AllocationBitmap.Tally` | kernel/alloc_bitmap.cpp:157-179 | the loop ends although its first run may be empty, and counts every bit once |
| `BitmapAllocator.AllocationBitmap.GetInfo` | kernel/alloc_bitmap.cpp:157-183 | used is eight times the number of set bits, and used and free add up to the total; in a reachable area used is the size of the live blocks, so it is zero once all are freed |
| `FiberSchedule.StepKeeps` | kernel/fiber.cpp:100-139 | no fiber is ever on the ring twice |
| `FiberSchedule.RunnableExactly` | kernel/fiber.cpp:115-139 | stop takes the current fiber off the ring and no other, yield none, and start puts its fiber on, with a current fiber that had stopped itself |
| `FiberSchedule.CurrentExactly` | kernel/fiber.cpp:100-139 | stop and yield go to the next fiber; a started fiber is the one the next switch goes to |
| `FiberSchedule.StoppedUntilStarted` | kernel/fiber.cpp:115-139 | over every run, a fiber that stopped while others were runnable is neither runnable nor running until it is started |
| `FiberSchedule.Run` | kernel/fiber.cpp:100-139 | so on every run of start, stop and yield |
| `FiberSchedule.ExactDelay` | kernel/fiber.cpp:71-75 | a fiber at distance d is first current after exactly d switches plus one for every start made while it waits |
| `FiberSchedule.RoundRobin` | kernel/fiber.cpp:100-107 | the i-th of a row of yields makes the i-th fiber of the ring current |
| `FiberSchedule.EachOnceARound` | kernel/fiber.cpp:100-107 | in one round of yields every fiber is current exactly once |
| `FiberLinks.YieldRepresents` | kernel/fiber.cpp:100-107 | after a switch the links spell out the rotated ring |
| `FiberLinks.StopRepresents` | kernel/fiber.cpp:115-130 | after remove_from_runlist the links spell out the ring without the current fiber, whose prev is null |
| `FiberLinks.StartRepresents` | kernel/fiber.cpp:132-139 | after start the links spell out the ring with the fiber right behind the current one |
| `FiberLinks.OperateRefines` | kernel/fiber.cpp:100-139 | the asserts on the pointers pass exactly when the schedule allows the operation, and the pointers then follow the schedule |
| `FiberLinks.RunMachine` | kernel/fiber.cpp:100-139 | on every run next and prev are inverses on the runnable fibers, all others have a null prev, and the pointer code passes its asserts exactly when the schedule does |
| `FiberLinks.InitRefines` | kernel/fiber.cpp:196-205 | fibers_init makes a ring of one |
| `FiberLinks.WalkVisitsRing` | kernel/fiber.cpp:132-139 | following next from the current fiber visits every fiber of the ring once and comes back |
| `FiberLinks.LastFiberExactly` | kernel/fiber.cpp:223-226 | last_fiber says that at most one fiber is runnable, and that exactly one is if and only if the current fiber has not stopped itself |
| `FiberLinks.StopByTheOnlyFiber` | kernel/fiber.cpp:115-130 | when the only fiber stops it goes on running, last_fiber holds and no fiber is runnable |
| `FiberLinks.NewFiberRefines` | kernel/fiber.cpp:151-185 | a fiber created during a run is on no ring and disturbs none |
| `FiberRing.Scheduler.FibersInit` | kernel/fiber.cpp:196-205 | the first fiber is linked to itself |
| `FiberRing.Scheduler.NewFiber` | kernel/fiber.cpp:151-185 | adds a fiber with null links and touches no other |
| `FiberRing.Scheduler.Yield` | kernel/fiber.cpp:100-107 | does to the fibers what the pointer machine does |
| `FiberRing.Scheduler.RemoveFromRunlist` | kernel/fiber.cpp:115-124 | unlinks the current fiber and leaves its next in place |
| `FiberRing.Scheduler.Stop` | kernel/fiber.cpp:126-130 | unlinks the current fiber and switches to the next |
| `FiberRing.Scheduler.Start` | kernel/fiber.cpp:132-139 | links a stopped fiber behind the current one |
| `FiberRing.Scheduler.IsLastFiber` | kernel/fiber.cpp:223-226 | compares the current fiber with its next |
| `MemoryBlocks.SplitKeepsView` | kernel/block.cpp:238-274 | a split changes nothing about any address: backing offset, kernel address, state, type and protection |
| `MemoryBlocks.SplitKeepsTiles` | kernel/block.cpp:238-274 | a split leaves neighbours without gap or overlap |
| `MemoryBlocks.SplitsKeepEverything` | kernel/block.cpp:115-121 | both over every sequence of splits, and no mapping changes |
| `MemoryBlocks.SplitKeeps` | kernel/block.cpp:238-274 | a split keeps the invariant, pages and references included |
| `MemoryBlocks.CommitKeeps` | kernel/block.cpp:322-336 | commit keeps the invariant: a block has a kernel address exactly when committed, the kernel maps the committed blocks and nothing else, and the client sees the bytes that belong to its addresses |
| `MemoryBlocks.UncommitKeeps` | kernel/block.cpp:366-374 | uncommit keeps the invariant |
| `MemoryBlocks.DestroyKeeps` | kernel/block.cpp:123-126 | deleting a free block keeps the invariant |
| `MemoryBlocks.StepKeeps` | kernel/block.cpp:238-388 | every operation that passes its asserts keeps the invariant |
| `MemoryBlocks.StateMachine` | kernel/block.cpp:317-388 | commit leads to committed, uncommit from committed to reserved, reserve to reserved and unreserve to free; what each makes of protection and type; none moves the block or touches another |
| `MemoryBlocks.CommitThenUncommit` | kernel/block.cpp:322-374 | committing a reserved block and uncommitting it restores block, kernel and client mappings |
| `MemoryBlocks.DestroyIsLocal` | kernel/block.cpp:123-126 | deleting a block takes that block away and leaves the others and every mapping |
| `MemoryBlocks.Run` | kernel/block.cpp:238-388 | the invariant holds after every run of split, commit, uncommit, reserve, unreserve, set_prot and delete |
| `MemoryBlocks.CreateIsInv` | kernel/block.cpp:200-209 | it holds after alloc_core_pages |
| `MemoryBlocks.StoreDeletedExactly` | kernel/block.cpp:189-198 | the backing store is never deleted while a block uses it, and is deleted with the last block exactly when no block was ever split |
| `MemoryBlocks.UncommitIsLocal` | kernel/block.cpp:276-282 | uncommitting one piece unmaps all of that piece and nothing of any other |
| `MemoryBlocks.KernelAndClientAgree` | kernel/block.cpp:99-113 | at every address of a committed block kernel and client see the same byte of the store |
| `MemoryBlocks.CommitMapsClient` | kernel/block.cpp:322-343 | a successful commit maps every address of the block in the client with its protection |
| `MemoryBlocks.CommitIsLocal` | kernel/block.cpp:322-336 | committing one piece leaves the others alone |
| `MemoryBlockObjects.AllocCorePages` | kernel/block.cpp:200-209 | a new block holds the only reference to its store; NULL exactly when there is no file descriptor to map |
| `MemoryBlockObjects.AnonymousPages.AddRef` | kernel/block.cpp:196 | takes a reference |
| `MemoryBlockObjects.AnonymousPages.Release` | kernel/block.cpp:197 | gives a reference up, and deletes the store with the last |
| `MemoryBlockObjects.CorePages.constructor` | kernel/block.cpp:91-97 | a free block that holds a reference |
| `MemoryBlockObjects.CorePages.DoSplit` | kernel/block.cpp:115-121 | the offset is computed from the size before the split, and two references are taken |
| `MemoryBlockObjects.CorePages.Split` | kernel/block.cpp:238-274 | the two blocks are those of the model, and the asserts at the end hold |
| `MemoryBlockObjects.CorePages.Commit` | kernel/block.cpp:322-343 | maps the block as the model says; dies exactly when neither attempt to map it succeeds or mmap in the client returns a positive number |
| `MemoryBlockObjects.CorePages.Uncommit` | kernel/block.cpp:366-374 | takes the block's mappings away and leaves it reserved |
| `MemoryBlockObjects.CorePages.LocalUnmap` | kernel/block.cpp:276-282 | unmaps the block from the kernel if it was mapped |
| `MemoryBlockObjects.CorePages.Reserve` | kernel/block.cpp:355-364 | reserves a free block, and leaves a reserved one alone |
| `MemoryBlockObjects.CorePages.Unreserve` | kernel/block.cpp:376-388 | frees a reserved block, and leaves a free one alone |
| `MemoryBlockObjects.CorePages.Delete` | kernel/block.cpp:123-126 | gives up the block's reference |
| `PixelStore.SetThenGet16` | kernel/bitmap.cpp:151-182 | at 16 bpp and every width a pixel just set reads back as its colour in 5/6/5 bits, and every other pixel as before |
| `PixelStore.Get16Layout` | kernel/bitmap.cpp:56-62 | the bytes of a pixel lie at twice its number, and as a number, low byte first, hold red, green and blue in the high five, middle six and low five bits |
| `PixelStore.Set16Layout` | kernel/bitmap.cpp:172-177 | a pixel is stored in those bytes with that layout, and no other byte changes |
| `PixelStore.Get1Layout` | kernel/bitmap.cpp:39-47 | the leftmost pixel of a byte is its highest bit, and a set bit is white |
| `PixelStore.RowSizeExactly` | kernel/bitmap.cpp:78-83 | a row has its whole bytes, and one more if their number is odd |
| `PixelStore.DecodeEncode` | kernel/bitmap.cpp:172-177 | the packing keeps the high five, six and five bits of red, green and blue |
| `PixelStore.Get16Masked` | kernel/bitmap.cpp:56-62 | a colour read from the store loses nothing when it is stored again |
| `PixelStore.RowFitsExactly` | kernel/bitmap.cpp:78-83 | a row of one-bit pixels fits exactly when the width modulo 16 is 0 or at least 8 |
| `PixelStore.PixelsInsideExactly` | kernel/bitmap.cpp:85-89 | every pixel of a one-bit bitmap lies in its buffer exactly when the rows fit |
| `PixelStore.SetThenGet1` | kernel/bitmap.cpp:163-171 | at 1 bpp and every width, setting a pixel changes exactly the pixels that share its bit, and those read back as its colour |
| `PixelStore.NoAlias1` | kernel/bitmap.cpp:39-47 | where the rows fit, every pixel lies in the buffer and shares its bit with no other |
| `PixelStore.LastPixelAliases` | kernel/bitmap.cpp:39-47 | where they do not fit, the last pixel of a row is a pixel of the next row as well |
| `PixelStore.NoAliasExactly` | kernel/bitmap.cpp:78-83 | a one-bit bitmap of at least two rows keeps its pixels apart exactly when its rows fit |
| `BitmapObject.Bitmap16.constructor` | kernel/bitmap.cpp:442-453 | a buffer of bitmap_size bytes |
| `BitmapObject.Bitmap16.GetPixel` | kernel/bitmap.cpp:56-62 | reads the pixel of the store; a point outside the bitmap whose bytes are in the buffer reads as a pixel of another row |
| `BitmapObject.Bitmap16.SetPixelL` | kernel/bitmap.cpp:151-182 | writes the two bytes of a pixel in range, returns FALSE for one out of range, and fails its asserts exactly on an empty bitmap |
| `BitmapObject.Bitmap16.BitBltSelf` | kernel/bitmap.cpp:189-210 | afterwards the bitmap shows what copying pixel after pixel in raster order gives, with a target that may reach outside; a copy that does not spoil shows the source as it was before in the target and changes nothing else |
| `BitmapObject.Bitmap16.BitBltRow` | kernel/bitmap.cpp:203-207 | the same for one row |
| `BitmapObject.LooksLikeSnapshot` | kernel/bitmap.cpp:189-210 | a copy on the stored bytes that does not spoil equals copying from a snapshot, and changes nothing else |
| `BitmapObject.Bitmap1.GetPixel` | kernel/bitmap.cpp:39-47 | reads the pixel of the store |
| `BitmapObject.Bitmap1.SetPixelL` | kernel/bitmap.cpp:151-182 | sets or clears the bit of a pixel in range, returns FALSE for one out of range, and fails an assert exactly on an empty bitmap or, in range, a colour that is neither black nor white |
| `Blit.DoneKept` | kernel/bitmap.cpp:201-208 | part way through a copy a finished target pixel has the colour its source had when it was read |
| `Blit.UnspoiledPixel` | kernel/bitmap.cpp:189-210 | in a copy that does not spoil, each pixel inside the bitmap is that of copying from a snapshot |
| `Blit.SpoiledPixel` | kernel/bitmap.cpp:201-208 | in a copy that spoils, a pixel inside the bitmap gets the colour of another one's source, whatever the picture |
| `Blit.InPlaceExactly` | kernel/bitmap.cpp:189-210 | copying in place equals copying from a snapshot, for every picture, exactly when the copy does not spoil: the target does not come after the source in raster order, or the two do not meet, or the pixels copied too late are clipped |
| `Blit.SpoilsInside` | kernel/bitmap.cpp:189-210 | with the target inside the bitmap, order and overlap alone decide that |
| `Lines.LineBresenham` | kernel/bitmap.cpp:245-291 | in all octants the dots are one per step along the longer axis, each at the only whole number on the other axis within half a step of the true line |
| `Lines.Walk` | kernel/bitmap.cpp:270-289 | the error walk makes exactly n dots, the k-th at the nearest minor coordinate |
| `Lines.MinorIsNearest` | kernel/bitmap.cpp:270-288 | the minor coordinate after k steps is the only number m with -n < 2 b k - 2 n m <= n, where n and b are the longer and the shorter extent |
| `Lines.MinorSteps` | kernel/bitmap.cpp:279-288 | each step moves it by one or not at all |
| `Lines.DotEnds` | kernel/bitmap.cpp:270-289 | the walk starts at one end and its minor coordinate arrives exactly at the other |
| `Lines.ErrorStep` | kernel/bitmap.cpp:279-288 | the sign of the error term decides the next minor coordinate correctly |
| `WideLines.DrawLineWide` | kernel/bitmap.cpp:301-353 | on every segment the nested loops end and set the points of the recursive description |
| `WideLines.DrawRow` | kernel/bitmap.cpp:331-350 | the inner loop sets the points of one row and carries error and start to the next |
| `WideLines.RowSound` | kernel/bitmap.cpp:331-350 | the carried pair stays consistent, and every point of a row is near enough and in range |
| `WideLines.RowsSound` | kernel/bitmap.cpp:329-351 | so is every point of all rows |
| `WideLineExact.ErrorIsDistance` | kernel/bitmap.cpp:294-299 | line_error is the squared distance from the line rounded down: no point of the line is nearer, and one is nearer than the next whole number |
| `WideLineExact.RowIs` | kernel/bitmap.cpp:331-350 | a row is a run of points from its start that ends at the right end or before the first point whose error is too big |
| `WideLineExact.NextRowIs` | kernel/bitmap.cpp:340-345 | the next row starts at the first column of this one that is near enough there, or else at the last |
| `WideLineExact.DrawsTheBand` | kernel/bitmap.cpp:301-353 | a pen at least two wide sets exactly the points of the half-open box of the segment with a point of the line at a squared distance below a quarter of the squared width, rounded down, plus one |
| `WideLineExact.ThinDrawsFromLeft` | kernel/bitmap.cpp:301-353 | a thinner pen sets in every row the left end and the points after it up to the first at distance one or more |
| `WideLines.SoundExactly` | kernel/bitmap.cpp:301-353 | every point set on a segment has an error of at most a quarter of the squared width and lies in the half-open ranges of the segment, exactly when the pen is at least two wide in magnitude, or the segment at most one column wide or two rows high |
| `WideLines.WideIsSoundExactly` | kernel/bitmap.cpp:301-353 | a pen width is right in this sense on every segment exactly when it is two or more in magnitude |
| `WideLines.ThinSetsColumn` | kernel/bitmap.cpp:332-345 | a thinner pen sets the whole left column, on the way down as on the way up |
| `WideLines.ThinIsSoundExactly` | kernel/bitmap.cpp:329-351 | so it is right exactly when the left column has no error in any row |
| `NumberText.TextParsesExactly` | kernel/client.c:257-275 | what append_number leaves determines the number, negative or not, by its place values; it consists of digits exactly when the number is not negative, and has no leading zero |
| `NumberText.IntTextLength` | kernel/client.c:257-275 | it has at most ten characters for every int |
| `NumberText.PathDetermines` | kernel/client.c:283-287 | different pids or descriptors give different paths, negative ones included |
| `NumberText.AppendString` | kernel/client.c:250-255 | writes the text and a NUL, returns the position of the NUL, and touches nothing else |
| `NumberText.WriteBackwards` | kernel/client.c:259-265 | writes the digits, least significant first |
| `NumberText.ReverseInPlace` | kernel/client.c:267-274 | reverses them, with i + n staying the length |
| `NumberText.AppendNumber` | kernel/client.c:257-275 | writes the number's text and a NUL, returns the position of the NUL, and touches nothing else |
| `NumberText.BuildPath` | kernel/client.c:277-287 | the whole path with its NUL fits the 32 bytes for every pid and descriptor of type int |

## Left out

- CompletionPorts.CompletionPort.StartWaiter: a waiter is represented by its thread and, once it has a packet, by an entry in a map; the waiter object on the thread's stack and its aliasing are not modelled.
- Completion waits that time out or whose thread is terminated: the timeout calls are commented out in the source, and termination runs through code outside these files.
- Kernel threads, which do not count as active, waiting on a completion port.
- AllocRuns.Run: stops where a length of 2^32 - 11 or more gets a block, since the property is false from there on (AllocKeepsExactly); clients write only inside their own blocks.
- Fiber stacks, register saving in switch_fiber and fiber_init, fibers_finish and the destructor.
- Guard pages, tracers, sections and query of memory blocks, and the address space that keeps the list of blocks; mmap and munmap are parameters and byte maps.
- BitmapObject.Bitmap16.BitBltRow: likewise reads only pixels inside the bitmap, as BitBltSelf does.
- BitmapObject.Bitmap16.BitBltSelf: the pixels read lie inside the bitmap; get_pixel does not check, so outside it bytes of other rows or beyond the buffer are read.
- BitmapObject.Bitmap16.GetPixel: reads bytes inside the buffer; what lies beyond it is unknown.
- BitmapObject.Bitmap1.GetPixel: the byte of the pixel lies in the buffer, as it does at every width whose rows fit (PixelsInsideExactly).
- BitmapObject.Bitmap1.SetPixelL: the byte of a pixel in range lies in the buffer, likewise.
- bitblt between two different bitmaps, raster operations other than copying, rectangle, draw_hline and draw_vline, pens wider than one in pen_dot, and 2 and 24 bits per pixel: easy or not implemented.
- Lines.LineBresenham: coordinates are unbounded integers; overflow of int is not modelled, nor in WideLines.
- Handle lookup, access checks and user-memory copies in the system calls; ptrace and system call wrappers; formatted output.
