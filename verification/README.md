# xos kernel: a verified model

xos is a small x86-64 operating system. This project models the parts of it
whose correctness is hardest to see, and proves what they are for:

- **Frames and address spaces** (`PhysicalFrames`, `Pmm`, `Paging`,
  `AddressSpaces`, `VmRuns`, `PageRights`, `RightsRuns`, `Vmm`): the frame bitmap
  with its byte accounting, four-level page tables built in frames from that
  bitmap, the rights along a walk, and all address spaces together over whole
  runs, with the other users of frames.
- **TCP** (`Tcp`, `TcpRuns`, `TcpLifetime`, `TcpSocket`): two connections and a
  network that loses, repeats and reorders segments, from opening to close.
- **xHCI rings** (`CyclePositions`, `Trbs`, `TrbRing`, `TrbStall`, `Xhci`,
  `EventRing`):
  driver and controller as two processes interleaved at single field accesses.
- **Kernel heap** (`HeapBlocks`, `HeapRuns`, `Heap`): the block list, and the
  linked headers in memory that represent it.
- **Channels and scheduling** (`Tasks`, `Ipc`, `IpcStreams`, `PipeRace`, `Pipe`,
  `ChannelIpc`, `Servers`, `TaskRing`, `SleepQueue`, `SchedRuns`, `Scheduler`):
  servers and blocking receive, the ready ring and timed wakeups.
- **Line drawing, checksums, calendar** (`Divisors`, `LineSteps`,
  `LineRange`, `Line`, `Checksum`, `Calendar`); `Division` holds the facts about
  quotients and remainders that the wrapping counters need.
- **AML** (`AmlBytes` to `AmlBattery`): the ACPI byte-code scanner and
  evaluator, from arbitrary bytes, and from an encoded namespace to the battery
  numbers reported.

Each part comes twice: as functions on values, about which the properties are
proved, and, where the source works in place, as classes and loops whose
contracts tie the new state to those functions. `View()` is the value an object
stands for. Panics and failed requests are `None`, `false` or a result of their
own, not preconditions.

## Where the code does less than one would expect

Each of these is proved; the rows below give the condition under which the code
does what it is meant to, as an equivalence wherever one is stated.

- `pmm_alloc_pages` accounts in 32 bits, so the count is right exactly below
  2^20 frames; it misses a free run that straddles its hint.
- `vmm_unmap_and_free_pages` on a last-level word that is not present frees the
  frame of that word, which is frame 0 for a zero word.
- A page table built for a page without PAGE_USER keeps user code from all pages
  under it, also from those mapped with PAGE_USER later.
- TCP payload that arrives outside ESTABLISHED is acknowledged and dropped.
- TIME_WAIT has no timer: the end that closes first keeps its slot for good.
- A SYN+ACK that acknowledges more than the SYN skips bytes buffered before it.
- A TRB ring takes cells - 2 outstanding entries, not cells - 1.
- `kmalloc` of more than 2^64 - 16 bytes returns a block that is too small, and
  its ASSERT fires for the sizes just below.
- `SYS_IPC_RECV` with length 0 can register a listener on a non-empty pipe, and
  bytes in a pipe are lost when their sender closes.
- `ipc_server` records its caller as listener without blocking it. If that task
  then waits on a channel, a connection wakes it out of that wait. A
  `joining_task` is never cleared, with the same effect after a join.
- `ipc_accept` waits at a slot not yet in use; the `ipc_server` that takes the
  slot forgets the waiter, which then never runs again.
- The read after a blocked receive can be preempted; a write between its load
  and its store of the count makes the count fall short for good.
- After `scheduler_remove` of the list head, with other tasks left, a scan from
  that head ends only if one of them is READY.
- `gfx_line` overflows for some lines as soon as an extent exceeds 715827883, and
  for a horizontal one from 2^30; the condition is given line by line.
- `pmm_reserve_region` takes an int, which a bitmap of 2^31 bytes is not.
- `to_datetime` is undone by the kernel's arithmetic until year 2^32.
- AML: the length recorded for a method can wrap; the number compared with for
  a battery is not the EISA id its comment names; a fourth battery never gets
  its methods; names and arguments evaluate to 0, arithmetic does not store into
  its target, NAnd and NOr give 0, and shift counts are taken mod 64; no
  branch or loop is ever entered; the scanner's operand counts are not those of
  the grammar for comparisons, Not, ToInteger and the opcodes it does not know;
  scanner and evaluator differ on where some terms end, such as unprefixed two-segment names,
  strings and logical operators. The comment at the head of aml.c says arithmetic
  returns 0; the code computes it, and the model follows the code.

## Model

| member | source | states |
|---|---|---|
| `PhysicalFrames.FirstClear` | kernel/memory/pmm.c:169-186 | the scan of pmm_alloc_page: everything before the index found is set, and the index found is clear |
| `PhysicalFrames.FirstRunLeast` | kernel/memory/pmm.c:211-253 | the scan of pmm_alloc_pages finds a clear run that lies in the range scanned, and the least such one; it finds none only if there is none |
| `PhysicalFrames.AllocPageKeeps` | kernel/memory/pmm.c:168-188 | from an accounted bitmap: the frame granted was clear and only its bit changes, used stays 4096 times the set bits, and the call fails exactly when every bit is set |
| `PhysicalFrames.AllocPagesKeeps` | kernel/memory/pmm.c:211-253 | success exactly when one of [last, page_count) and [0, last) holds a clear run of the length looked for; then exactly that run is set, and the accounting is kept if and only if count < 2^20, since count * 4096 is a 32-bit product |
| `PhysicalFrames.BytesFit` | kernel/memory/pmm.c:226-226 | the 32-bit product equals the size in bytes exactly below 2^20 frames |
| `PhysicalFrames.StraddlingRunMissed` | kernel/memory/pmm.c:211-253 | two adjacent free frames on both sides of the hint are not found: a run that straddles it is missed |
| `PhysicalFrames.FreePageKeeps` | kernel/memory/pmm.c:190-209 | freeing succeeds exactly for a set frame, clears exactly its bit, lowers used by 4096 and keeps the accounting |
| `PhysicalFrames.AllocPageIsNext` | kernel/memory/pmm.c:168-188 | the frame granted is the first clear one from the hint on, or the first of all if none is; the hint moves behind it |
| `PhysicalFrames.AllocPagesIsNext` | kernel/memory/pmm.c:211-253 | a run granted is the first from the hint on, or else the first that ends before it, and the hint moves behind it |
| `PhysicalFrames.NextFit` | kernel/memory/pmm.c:168-188 | with a clear frame behind the last one granted, the next grant is there |
| `PhysicalFrames.NextFitAfterRun` | kernel/memory/pmm.c:211-253 | and the same behind a granted run |
| `PhysicalFrames.FreedIsNext` | kernel/memory/pmm.c:190-209 | a frame freed below the hint is the next one granted, which restores the bitmap; above it the hint stays |
| `Pmm.BitsOfSet` | kernel/memory/pmm.c:39-41 | or-ing the mask into a bitmap byte sets exactly that bit of the whole map |
| `Pmm.BitsOfClear` | kernel/memory/pmm.c:43-45 | and-ing the complement clears exactly that bit |
| `Pmm.FindMaxPage` | kernel/memory/pmm.c:83-93 | the highest page over all descriptors |
| `Pmm.FindBitmapPlace` | kernel/memory/pmm.c:116-131 | the first descriptor that can hold the bitmap, or that there is none |
| `Pmm.Allocator.BitmapTest` | kernel/memory/pmm.c:47-49 | reads the bit of the value-level map |
| `Pmm.Allocator.BitmapSet` | kernel/memory/pmm.c:39-41 | sets that bit and no other |
| `Pmm.Allocator.BitmapClear` | kernel/memory/pmm.c:43-45 | clears that bit and no other |
| `Pmm.Allocator.ScanClear` | kernel/memory/pmm.c:169-186 | the loop computes FirstClear |
| `Pmm.Allocator.AllocPage` | kernel/memory/pmm.c:168-188 | the byte bitmap and counters change exactly as the value-level allocator says; nothing changes on failure |
| `Pmm.Allocator.ScanRun` | kernel/memory/pmm.c:211-253 | the loop with its 32-bit run counter computes FirstRun |
| `Pmm.Allocator.AllocPages` | kernel/memory/pmm.c:211-253 | as AllocPage, for runs |
| `Pmm.Allocator.FreePage` | kernel/memory/pmm.c:190-209 | as the value-level FreePage, false in exactly its panics |
| `Pmm.Allocator.GetStats` | kernel/memory/pmm.c:262-266 | used is 4096 times the set bits, total is used plus free, and free is 0 exactly when an allocation would fail |
| `Pmm.Allocator.ReservePage` | kernel/memory/pmm.c:51-57 | sets the bit and keeps the accounting, also when it was set |
| `Pmm.Allocator.UnreservePage` | kernel/memory/pmm.c:58-64 | clears the bit and keeps the accounting, also when it was clear |
| `Pmm.RegionPagesIff` | kernel/memory/pmm.c:66-73 | the page count of pmm_reserve_region, in its int and 64-bit arithmetic, is that of the region if and only if the size is below 2^31 |
| `Pmm.Allocator.ReserveRegion` | kernel/memory/pmm.c:66-73 | for such sizes, sets exactly the frames the region touches, and keeps the accounting |
| `Pmm.Allocator.UnreserveConventional` | kernel/memory/pmm.c:75-162 | from an all-set map, clears exactly the conventional frames |
| `Pmm.Allocator.Populate` | kernel/memory/pmm.c:75-162 | afterwards a frame is free exactly if conventional, not frame 0, not bitmap, not kernel image |
| `Pmm.Allocator.Init` | kernel/memory/pmm.c:75-162 | pmm_init as a whole: that set of free frames, used equal to 4096 times the set bits, and failure exactly when no descriptor can hold the bitmap |
| `Paging.IndexInjective` | kernel/memory/vmm.c:78-95 | a page is determined by its four table indices |
| `Paging.GetOrCreateKeeps` | kernel/memory/vmm.c:30-43 | keeps the tables a forest with disjoint frames, and the slot afterwards leads to the table returned |
| `Paging.GetOrCreateGrows` | kernel/memory/vmm.c:30-43 | adds at most one zeroed table and changes no existing walk |
| `Paging.SetLeafWalk` | kernel/memory/vmm.c:78-95 | writing one leaf word changes exactly the walks that end in it |
| `Paging.LeafUnique` | kernel/memory/vmm.c:30-43 | two walks that reach one last-level table agree in all upper indices and in the root, unless they go through a shared upper half |
| `Paging.MapPageLookup` | kernel/memory/vmm.c:78-95 | mapping one page: that page translates to the frame, no other page changes, in no other space below the middle |
| `AddressSpaces.MapPagesLookup` | kernel/memory/vmm.c:78-95 | over the whole range, in every space: pages of the range go to consecutive frames, every other translation is as before, and other spaces change only through the shared upper half |
| `AddressSpaces.MapPagesRoots` | kernel/memory/vmm.c:78-95 | slots of PML4 tables, once present, stay |
| `AddressSpaces.MapPagesFrames` | kernel/memory/vmm.c:20-43 | the frames taken while mapping are exactly the new tables, each was free, and the accounting is kept |
| `AddressSpaces.UnmapPageLookup` | kernel/memory/vmm.c:53-76 | one round clears exactly its page |
| `AddressSpaces.UnmapPagesKeeps` | kernel/memory/vmm.c:53-76 | the range translates to nothing, everything else as before, and no table is freed |
| `AddressSpaces.UnmapFreesMapped` | kernel/memory/vmm.c:53-76 | a round frees the mapped frame, or nothing for an unmapped page, exactly unless the last-level table exists with a word that is not present; with a zero word it frees frame 0 |
| `AddressSpaces.SecondUnmapFreesZero` | kernel/memory/vmm.c:53-76 | a page unmapped twice: the second time its word is zero, and frame 0 is freed if it was allocated |
| `AddressSpaces.UnmapRun` | kernel/memory/vmm.c:53-76 | unmapping a mapped run succeeds, frees exactly its frames and lowers used by its size |
| `AddressSpaces.RoundTripLookup` | kernel/memory/vmm.c:53-95 | allocate, map, unmap: the range is unmapped and every other page translates as at the start |
| `AddressSpaces.RoundTripFrames` | kernel/memory/vmm.c:53-95 | frame by frame: exactly the n frames are free again, the tables built on the way stay allocated, and used differs by exactly those tables |
| `AddressSpaces.RoundTrip` | kernel/memory/vmm.c:53-95 | every translation is restored if and only if the range was unmapped before |
| `AddressSpaces.CreateSpaceKeeps` | kernel/memory/vmm.c:144-157 | the new PML4 is a fresh frame, zero below and a copy of the kernel slots above; no other table changes |
| `AddressSpaces.CreateSpaceLookup` | kernel/memory/vmm.c:144-157 | a new space translates nothing below and, above, exactly as the kernel space; no other translation changes |
| `AddressSpaces.DataOnlyKeeps` | kernel/memory/vmm.c:226-248 | taking, freeing and writing frames that hold no table leaves every table and every PML4 slot what it was |
| `AddressSpaces.DataOnlyWalk` | kernel/memory/vmm.c:226-248 | and every translation from every table |
| `VmRuns.ExecKeeps` | kernel/memory/vmm.c:53-157 | every operation on every space, and every allocation, free or write of frames by the rest of the kernel, keeps the system invariant |
| `VmRuns.RunKeeps` | kernel/memory/vmm.c:53-157 | so does every run of them |
| `VmRuns.KernelHalfShared` | kernel/memory/vmm.c:144-157 | in every state of every run, an upper-half page whose PML4 slot existed when the space was created translates exactly as in the kernel space, whatever frames others take, free and write in between |
| `VmRuns.RunIsolated` | kernel/memory/vmm.c:78-95 | over every run of operations on other spaces and on other frames, no lower-half translation of a space changes, and no upper-half one either when they stay in lower halves |
| `PageRights.LeafWordBits` | kernel/memory/vmm.c:78-95 | by quotients and remainders: a last-level word has the frame in bits 12 to 51, bits 1 to 11 and 52 to 63 of the flags, and is present |
| `PageRights.TableWordBits` | kernel/memory/vmm.c:30-43 | a word for a new table has its frame, is present and writable, and has the user bit of the flags and no other |
| `PageRights.RightsSplit` | kernel/memory/vmm.c:30-95 | write, user and execute rights along a walk are those its upper words allow together with those of its last word |
| `PageRights.GetOrCreateBuilds` | kernel/memory/vmm.c:30-43 | a table created hangs from a word present, writable and user as the flags say; every other link keeps its word |
| `PageRights.MapPagesBuilds` | kernel/memory/vmm.c:78-95 | so does every table built while mapping a range, and no existing link changes |
| `PageRights.MapPagesWords` | kernel/memory/vmm.c:78-95 | after mapping a range, every last-level word of it has the frame of its page and exactly the bits of the flags, with present added |
| `PageRights.SetLeafRights` | kernel/memory/vmm.c:78-95 | writing one leaf word changes exactly the rights of the walks that end in it |
| `PageRights.MapPageRights` | kernel/memory/vmm.c:78-95 | mapping one page: its rights are those of the flags less what existing tables deny, and no other rights change |
| `PageRights.MapPagesRights` | kernel/memory/vmm.c:78-95 | over the range: pages in it have the rights of the flags less what tables that were there before deny; every other page, and every other space for a lower-half range, has the rights it had |
| `PageRights.MissingTableDenies` | kernel/memory/vmm.c:30-43 | where a table had to be built for a page without PAGE_USER, the tables deny user access to all pages beside it |
| `PageRights.KernelTableHidesUser` | kernel/memory/vmm.c:78-95 | so a page beside it that is then mapped with PAGE_USER is not accessible to user code |
| `RightsRuns.RunRightsIsolated` | kernel/memory/vmm.c:53-157 | over every run of operations on other spaces and frames, the rights of a lower-half page of a space do not change |
| `RightsRuns.RunOpen` | kernel/memory/vmm.c:53-157 | over every run no upper-level word denies writing or execution |
| `RightsRuns.RunRights` | kernel/memory/vmm.c:53-157 | from boot, in every state of every run: a mapped page is writable and executable exactly as its own last word says, and user exactly if its tables agree with it |
| `Vmm.AddressFields` | kernel/memory/vmm.c:78-95 | the shifts and masks of an address are the table indices of its page |
| `Vmm.FlatMap` | kernel/memory/vmm.c:226-248 | on byte addresses: for aligned arguments, virt_to_phys(va + d) is pa + d for every d in the range, and every address whose page is outside it translates as before |
| `Vmm.Memory.GetTable` | kernel/memory/vmm.c:45-52 | the table a present word leads to |
| `Vmm.Memory.GetOrCreate` | kernel/memory/vmm.c:30-43 | words and bitmap change as the value-level step says |
| `Vmm.Memory.VirtToPhys` | kernel/memory/vmm.c:226-248 | the four-level walk computes the translation, 0 for an unmapped page |
| `Vmm.Memory.DescendTo` | kernel/memory/vmm.c:78-95 | reaches the last-level table of the page, with the missing tables created on the way as the value-level descent creates them |
| `Vmm.Memory.MapOne` | kernel/memory/vmm.c:78-95 | one round leaves memory, tables and bitmap as the value-level MapPage does, whose words and rights PageRights.MapPageRights and LeafWordBits give |
| `Vmm.Memory.MapPages` | kernel/memory/vmm.c:78-95 | the loop over page words and bitmap refines the value-level map: translations by AddressSpaces.MapPagesLookup, words by PageRights.MapPagesWords, rights by PageRights.MapPagesRights |
| `Vmm.Memory.UnmapOne` | kernel/memory/vmm.c:53-76 | one round leaves memory and bitmap as the value-level UnmapPage does |
| `Vmm.Memory.UnmapAndFreePages` | kernel/memory/vmm.c:53-76 | the loop refines the value-level unmap |
| `Vmm.Memory.CreateAddressSpace` | kernel/memory/vmm.c:144-157 | refines the value-level creation |
| `Tcp.RingExact` | kernel/net/tcp.c:318-329 | appending n bytes to a 4096-byte ring that holds some unread ones keeps the stream, whatever the bytes, if and only if all of them fit |
| `Tcp.RingAppend` | kernel/net/tcp.c:380-392 | within that bound the bytes read back are the old ones followed by the new ones |
| `Tcp.RingOverflow` | kernel/net/tcp.c:380-392 | beyond it there are bytes for which they are not |
| `Tcp.PayloadStoredIff` | kernel/net/tcp.c:271-329 | the payload of an accepted segment is stored exactly in ESTABLISHED, and acknowledged in every state |
| `TcpRuns.SendTransmits` | kernel/net/tcp.c:358-392 | tcp_send on a connection in step transmits exactly its bytes in one segment at the end of the stream |
| `TcpRuns.GiveKeeps` | kernel/net/tcp.c:380-392 | tcp_send keeps the invariant of the two ends and the segments in flight |
| `TcpRuns.TakeKeeps` | kernel/net/tcp.c:394-408 | so does tcp_receive |
| `TcpRuns.CloseKeeps` | kernel/net/tcp.c:218-227 | so does tcp_terminate_connection |
| `TcpRuns.DeliverKeeps` | kernel/net/tcp.c:229-356 | so does the delivery of any segment ever sent, old, repeated or out of order |
| `TcpRuns.RunKeeps` | kernel/net/tcp.c:229-408 | hence every run |
| `TcpRuns.ReceivedIsPrefixOfSent` | kernel/net/tcp.c:229-408 | from two ends in step, over a network that loses, repeats and reorders, whatever closes when: in both directions the bytes received are always a prefix of the bytes given |
| `TcpRuns.PromptDelivery` | kernel/net/tcp.c:229-408 | and on a network that delivers, send, deliver and receive hand over exactly the bytes sent |
| `TcpLifetime.Handshake` | kernel/net/tcp.c:166-316 | tcp_active, the answer of a listening port and the ACK for it give two established ends in step, for all initial sequence numbers |
| `TcpLifetime.StreamsFromOpening` | kernel/net/tcp.c:166-408 | so from the first SYN on, over every run, the bytes received are a prefix of the bytes given, in both directions |
| `TcpLifetime.SynSentIff` | kernel/net/tcp.c:271-304 | in SYN_SENT: established if and only if SYN and ACK come without RST, and then an ACK is sent first; RST drops the connection; every other segment draws exactly one RST and changes no state |
| `TcpLifetime.SynReceivedIff` | kernel/net/tcp.c:271-316 | in SYN_RECEIVED: established if and only if the expected ACK comes while the port is listened to; RST drops it, an unexpected number is ignored, and a segment without ACK draws RST |
| `TcpLifetime.OpeningFlushes` | kernel/net/tcp.c:271-304 | bytes buffered before the opening go out right behind its ACK, all of them exactly if the SYN+ACK acknowledges the SYN and nothing more |
| `TcpLifetime.BufferedBeforeOpen` | kernel/net/tcp.c:380-392 | until established, tcp_send only appends to the send buffer |
| `TcpLifetime.CarriesAck` | kernel/net/tcp.c:101-111 | every segment sent carries the acknowledgement number the connection has reached |
| `TcpLifetime.AckMovesTail` | kernel/net/tcp.c:271-289 | an acknowledgement moves only the start of what is left to send, and only forward |
| `TcpLifetime.OneCloses` | kernel/net/tcp.c:218-356 | one end closes: FIN, FIN and ACK, ACK; then the other end is CLOSED and its slot free, and the one that closed is in TIME_WAIT |
| `TcpLifetime.BothClose` | kernel/net/tcp.c:218-356 | both close before either hears of it: both end CLOSED with their slots free |
| `TcpLifetime.LateData` | kernel/net/tcp.c:330-343 | data under way to an end that has closed is not kept, and the close ends as before |
| `TcpLifetime.NeverHalfClosed` | kernel/net/tcp.c:229-408 | over every run CLOSE_WAIT and CLOSING are never entered |
| `TcpLifetime.TimeWaitForever` | kernel/net/tcp.c:345-355 | with its peer gone and everything the peer sent received, an end in TIME_WAIT keeps its slot over every run, unless it is closed once more: there is no timer |
| `TcpLifetime.CloseSticks` | kernel/net/tcp.c:218-356 | and from two settled ends a run of one close leads there |
| `TcpSocket.TcpActive` | kernel/net/tcp.c:166-183 | a slot in SYN_SENT and one SYN, as the value-level opening |
| `TcpSocket.TcpPassive` | kernel/net/tcp.c:246-264 | a bare SYN to a listening port is answered by SYN+ACK from a slot in SYN_RECEIVED; any other flags leave no slot and send nothing |
| `TcpSocket.CellOfCounter` | kernel/net/tcp.c:318-329 | a wrapping 32-bit counter still names the right ring cell |
| `TcpSocket.Socket.constructor` | kernel/net/tcp.c:64-81 | a claimed, zeroed slot with the random number as sequence number |
| `TcpSocket.Socket.SendHeader` | kernel/net/tcp.c:101-145 | the segment sent and the new sequence number |
| `TcpSocket.FlushEndsIff` | kernel/net/tcp.c:358-378 | the copy loop with its 16-bit counter ends if and only if fewer than 2^16 bytes wait |
| `TcpSocket.Socket.Flush` | kernel/net/tcp.c:358-378 | the loop sends exactly the buffered bytes and moves tail and sequence number |
| `TcpSocket.Socket.Store` | kernel/net/tcp.c:318-329 | the copy loop is RingPut |
| `TcpSocket.Socket.InEstablished` | kernel/net/tcp.c:318-329 | payload into the ring and an ACK, then FIN into LAST_ACK, as the value-level case |
| `TcpSocket.Socket.React` | kernel/net/tcp.c:290-355 | the switch over all states, with what is sent, refines the value-level reaction; TcpLifetime says what that does in each state |
| `TcpSocket.Socket.OnData` | kernel/net/tcp.c:229-356 | acceptance, acknowledgement and switch together refine the value-level connection that the run and lifetime theorems are about |
| `TcpSocket.Socket.Buffer` | kernel/net/tcp.c:380-392 | the copy loop of tcp_send is RingPut on the send ring |
| `TcpSocket.Socket.Send` | kernel/net/tcp.c:380-392 | refines the value-level send; accepted exactly for a claimed slot and some bytes |
| `TcpSocket.Socket.Receive` | kernel/net/tcp.c:394-408 | returns the oldest unread bytes, in order |
| `TcpSocket.Socket.Terminate` | kernel/net/tcp.c:218-227 | refines the value-level close |
| `CyclePositions.SlotAfter` | kernel/io/xhci.c:207-223 | up to a lap on, the cell wraps at most once and the cycle flips with it |
| `CyclePositions.SlotsDiffer` | kernel/io/xhci.c:207-223 | entries less than a lap apart live in different cells |
| `CyclePositions.SlotIs` | kernel/io/xhci.c:207-223 | entry k is in cell k mod m, and its cycle is set exactly on laps of even number |
| `Trbs.WithCycleReads` | kernel/io/xhci.c:207-223 | bit 0 of the word is the cycle and the other 31 bits are the control word given, its type among them |
| `Trbs.LinkReads` | kernel/io/xhci.c:207-223 | a Link control word reads back as a Link with toggle and the given cycle |
| `TrbRing.PutParamKeeps` | kernel/io/xhci.c:207-223 | the single write of param goes to a cell the controller does not own |
| `TrbRing.PutControlKeeps` | kernel/io/xhci.c:207-223 | the write of control hands over the whole TRB at once |
| `TrbRing.LinkFieldKeeps` | kernel/io/xhci.c:213-221 | each write of a Link field is harmless until its control word |
| `TrbRing.LinkControlKeeps` | kernel/io/xhci.c:213-221 | the Link control word starts the next lap |
| `TrbRing.ProduceKeeps` | kernel/io/xhci.c:207-304 | every single field write of the driver keeps the ring invariant |
| `TrbRing.ConsumeKeeps` | kernel/io/xhci.c:207-304 | so does every single field read of the controller |
| `TrbRing.TakeKeeps` | kernel/io/xhci.c:207-304 | the TRB the controller takes is the one pushed at that position, whole |
| `TrbRing.ResetKeeps` | kernel/io/xhci.c:730-737 | so does re-programming the dequeue pointer |
| `TrbRing.RunKeeps` | kernel/io/xhci.c:207-304 | hence every interleaving |
| `TrbRing.PushedAreBegun` | kernel/io/xhci.c:207-304 | over every run, what was pushed, and what is half written, are the TRBs the driver was given to push, in order |
| `TrbRing.RingIsFifo` | kernel/io/xhci.c:207-304 | under every interleaving of single writes and reads, over any number of laps, what was read since the last reset is exactly the TRBs the driver was given to push from there on, in order, none half written, skipped or read twice: parameter, status and 31 bits of control as given, bit 0 set exactly on even laps |
| `TrbRing.ConsumerProgress` | kernel/io/xhci.c:207-304 | with a TRB outstanding, the controller reads one within five steps, the Link included |
| `TrbRing.OneMoreStalls` | kernel/io/xhci.c:207-304 | the limit of cells - 2 outstanding is exact: one more rewrites the Link under the controller, which then cannot move |
| `TrbStall.StallReachable` | kernel/io/xhci.c:207-304 | the state this happens in is reached from a zeroed ring of any size, within the limit |
| `Xhci.ProducerRing.constructor` | kernel/io/xhci.c:207-223 | a zeroed ring with cycle state 1 is an initial state |
| `Xhci.ProducerRing.PutTrb` | kernel/io/xhci.c:207-304 | the four statements are four protocol steps, and leave the TRB as given in its cell, with the cycle in bit 0 |
| `Xhci.ProducerRing.PutLink` | kernel/io/xhci.c:213-221 | the wrap is four more, and leaves the other cells and what was pushed alone |
| `Xhci.ProducerRing.Push` | kernel/io/xhci.c:207-304 | each of the five push functions runs the ring exactly through its four or eight protocol steps; the TRB given is pushed, and its cell carries it |
| `Xhci.DequeuePointerRoundTrip` | kernel/io/xhci.c:730-737 | the controller decodes from the two context words exactly the driver's cell and cycle |
| `Xhci.ResetForgets` | kernel/io/xhci.c:730-737 | after that no earlier TRB is read again: the next one read carries the next one the driver is given to push |
| `EventRing.ProduceKeeps` | kernel/io/xhci.c:315-336 | the controller writes only cells evt_dequeue is not reading |
| `EventRing.ExecKeeps` | kernel/io/xhci.c:315-336 | every step of either side keeps the event-ring invariant |
| `EventRing.ProducedArePosted` | kernel/io/xhci.c:315-336 | over every run, what the controller has written, and has half written, are the events it was given to post, in order |
| `EventRing.EventsInOrder` | kernel/io/xhci.c:315-336 | over every interleaving and any number of cycle flips, the events returned are those the controller was given to post, once each and in order: type, parameter, status and 31 bits of control as given, bit 0 set exactly on even laps |
| `EventRing.DequeueWhole` | kernel/io/xhci.c:315-336 | a successful evt_dequeue reads all fields from one TRB, which tells the next event posted, moves on by one, flips the cycle at the end and programs ERDP |
| `EventRing.Consumer.constructor` | kernel/io/xhci.c:315-336 | an empty ring, cycle 1 |
| `EventRing.Consumer.Dequeue` | kernel/io/xhci.c:315-336 | an event is found exactly when the controller is ahead, and its fields are those of the next event posted |
| `HeapBlocks.PayloadsDisjoint` | kernel/memory/heap.c:18-50 | payloads of a well-formed heap are disjoint, in range and 16-aligned |
| `HeapBlocks.TakeKeeps` | kernel/memory/heap.c:99-118 | cutting and taking a fitting block keeps the tiling, the sizes and the absence of free neighbours |
| `HeapBlocks.ExpandKeeps` | kernel/memory/heap.c:61-86 | so does growing by whole pages; the last block is then free |
| `HeapBlocks.KfreeKeeps` | kernel/memory/heap.c:119-137 | so does freeing with its merges on both sides |
| `HeapRuns.TakeUsed` | kernel/memory/heap.c:99-118 | taking a block adds exactly its payload to the live ones |
| `HeapRuns.FreeUsed` | kernel/memory/heap.c:119-137 | freeing removes exactly that payload |
| `HeapRuns.KmallocServes` | kernel/memory/heap.c:99-118 | a call that returns gives a payload nobody has, at least as large as asked and less than 63 bytes larger, and leaves every other live payload where it is |
| `HeapRuns.KmallocPlaces` | kernel/memory/heap.c:61-118 | no free block that holds the request lies below the one used; the heap grows only if there is none, and by as few pages as hold request and header |
| `HeapRuns.KmallocEnds` | kernel/memory/heap.c:99-118 | a null pointer for size 0 alone; out of memory exactly if no free block holds the request and the pages are refused |
| `HeapRuns.ServesIff` | kernel/memory/heap.c:14-16 | a returned block serves its caller if and only if the size is at most 2^64 - 16; above, align_up wraps |
| `HeapRuns.AssertFailsIff` | kernel/memory/heap.c:99-118 | the second ASSERT of kmalloc fires exactly for sizes between 2^64 - 4128 and 2^64 - 16 when nothing fits and the pages are granted |
| `HeapRuns.TakeThenFree` | kernel/memory/heap.c:99-137 | kfree of a block just taken gives back the very same list |
| `HeapRuns.MallocThenFree` | kernel/memory/heap.c:61-137 | kmalloc then kfree restores the list if no expansion was needed, and otherwise leaves the old list grown by whole free pages |
| `HeapRuns.ExecKeeps` | kernel/memory/heap.c:99-137 | every call keeps the heap well formed and the live set right |
| `HeapRuns.LivePayloadsDisjoint` | kernel/memory/heap.c:99-137 | after every sequence of calls, live payloads are pairwise disjoint with a header between, in the heap, 16-aligned, each as large as asked for |
| `Heap.SplitLinked` | kernel/memory/heap.c:37-50 | the header writes of a split represent the list with one block cut in two, next and prev inverse |
| `Heap.MergeLinked` | kernel/memory/heap.c:119-137 | those of a merge represent the list with two blocks made one |
| `Heap.FlagLinked` | kernel/memory/heap.c:99-137 | a flag write changes that flag in the list |
| `Heap.ExpandLinked` | kernel/memory/heap.c:61-86 | the writes of expand_heap represent the grown list |
| `Heap.KernelHeap.constructor` | kernel/memory/heap.c:18-35 | one free block over four pages |
| `Heap.KernelHeap.FindFreeBlock` | kernel/memory/heap.c:88-97 | the walk finds the first fit, 0 if none |
| `Heap.KernelHeap.FindLastBlock` | kernel/memory/heap.c:52-59 | the walk ends at the last block |
| `Heap.KernelHeap.SplitBlock` | kernel/memory/heap.c:37-50 | the block keeps what was asked, the rest becomes a free block after it |
| `Heap.KernelHeap.ExpandHeap` | kernel/memory/heap.c:61-86 | grows as the value-level heap says, and returns the last block |
| `Heap.KernelHeap.TakeAt` | kernel/memory/heap.c:99-118 | cuts the block when enough is left over and marks it used: the headers represent the carved list |
| `Heap.KernelHeap.FindOrExpand` | kernel/memory/heap.c:99-118 | the first fit, or the last block after an expansion, or 0 when that is refused |
| `Heap.KernelHeap.Kmalloc` | kernel/memory/heap.c:99-118 | the headers represent exactly the value-level result, null pointer and both panics told apart |
| `Heap.KernelHeap.Kfree` | kernel/memory/heap.c:119-137 | the headers represent exactly the freed and merged list |
| `Heap.KernelHeap.CoalesceNext` | kernel/memory/heap.c:119-137 | with a free block after it, the headers represent the list with the two made one; otherwise nothing changes |
| `Heap.KernelHeap.CoalescePrev` | kernel/memory/heap.c:119-137 | the same for a free block before it |
| `Heap.KernelHeap.CountPages` | kernel/memory/heap.c:61-86 | the page count in 64-bit arithmetic |
| `Ipc.ExecKeeps` | kernel/ipc/channel.c:77-240 | server, connect, accept, send, receive, close and every task transition keep the invariant of channels, servers and tasks |
| `Ipc.RunKeeps` | kernel/ipc/channel.c:77-240 | so does every run |
| `Ipc.NoLostWakeup` | kernel/cpu/syscall.c:575-589 | in every reachable state a registered listener has an empty inbound pipe and an open peer, and the next send or close of the peer removes it and leaves it READY if it was BLOCKED |
| `Ipc.NoLostConnection` | kernel/ipc/channel.c:77-152 | a server with a listener has no pending connection, and the next connect queues one and wakes the listener |
| `Ipc.RecordedAfter` | kernel/ipc/channel.c:77-240 | which tasks are recorded where after each step: what was and is not cleared, and what the step records |
| `Ipc.CleanRun` | kernel/ipc/channel.c:77-240 | over every run, a task that neither calls ipc_server nor joins a thread or process is recorded in at most one place, and only while BLOCKED or DEAD |
| `Ipc.SpuriousWakeIff` | kernel/ipc/channel.c:77-240 | a waiting task is woken with its registration left behind if and only if the step wakes it for another place it is recorded in |
| `Ipc.CleanIsNotSpurious` | kernel/ipc/channel.c:77-240 | so that never happens to a task recorded in one place only |
| `Ipc.SpuriousConnect` | kernel/ipc/channel.c:77-152 | it does happen to a task that called ipc_server and then waits on a channel: a connect wakes it, its slot stays taken, and its next receive returns at once with nothing |
| `Ipc.JoinerWokenAgain` | kernel/scheduler/scheduler.c:231-242 | and to a task that has once joined a thread: joining_task is never cleared, so a second kill of that thread wakes the task out of a later receive |
| `Ipc.ForgottenRun` | kernel/ipc/channel.c:77-240 | a BLOCKED task recorded nowhere is never READY again, over every run |
| `Ipc.LostWaiter` | kernel/ipc/channel.c:77-110 | such a task there is: one that waits in ipc_accept at a slot not yet in use, once ipc_server takes that slot |
| `Ipc.FirstAcceptRefused` | kernel/ipc/channel.c:77-110 | until the first connection, ipc_accept on a new server never waits, since ipc_server itself holds the slot |
| `Ipc.ReceivedIsPrefix` | kernel/ipc/channel.c:154-200 | per direction, in every reachable state, what was received is a prefix of what the pipe accepted, and the pipe holds the rest |
| `IpcStreams.SentStep` | kernel/ipc/channel.c:154-178 | what a step adds to what a pipe has accepted: of a send from that side the first bytes, as many as there is room for; of any other step nothing |
| `IpcStreams.SentIsKept` | kernel/ipc/channel.c:154-178 | over every run, a pipe has accepted exactly those |
| `IpcStreams.KeptIff` | kernel/ipc/channel.c:154-178 | all bytes handed to channel_send are accepted if and only if every send fits |
| `IpcStreams.ReceivedIsWhatWasSent` | kernel/ipc/channel.c:154-200 | from boot, per direction and over every run: bytes received and bytes in the pipe together are, in order, the first bytes of each send that there was room for; if every send fits, the bytes received are a prefix of those handed to channel_send |
| `IpcStreams.ConnectMakes` | kernel/ipc/channel.c:129-152 | a connect adds one open, empty channel whose first end is the caller's process |
| `IpcStreams.AcceptJoins` | kernel/ipc/channel.c:88-110 | an accept gives the oldest pending channel the caller's process as second end, and changes no other channel and no task |
| `IpcStreams.AcceptedInOrder` | kernel/ipc/channel.c:60-110 | over every run connections are accepted in the order they were queued, none twice and none left out |
| `Ipc.ClosedNeverDelivers` | kernel/ipc/channel.c:179-200 | over every run after a close, none of the bytes left in that side's pipe are handed over |
| `Ipc.LostAtClose` | kernel/ipc/channel.c:179-240 | so exactly the bytes still in the pipe at the close are lost |
| `Ipc.RecvKeepsIff` | kernel/cpu/syscall.c:575-589 | a blocking receive keeps the invariant exactly when it asks for bytes, or the peer is closed, or nothing is there, or a listener is |
| `Ipc.SelfChannelDeaf` | kernel/ipc/channel.c:154-200 | on a channel from a process to itself a receiver never gets what its own process sends |
| `PipeRace.ExecKeeps` | kernel/ipc/pipe.c:32-54 | every memory access of a preempted pipe_read, and every pipe_write between two of them, keeps the invariant of buffer, positions and count |
| `PipeRace.PutAllIs` | kernel/ipc/pipe.c:32-44 | a write accepts its first bytes, as many as the count leaves room for |
| `PipeRace.PrefixIff` | kernel/ipc/pipe.c:46-54 | over every interleaving, each byte read is the accepted byte of that number if and only if none is copied while more than 4096 are unread; the bytes are then a prefix of those accepted |
| `PipeRace.AllContentsIff` | kernel/ipc/pipe.c:32-54 | from an empty pipe: whatever bytes the same writes carry, what is read is a prefix of what was accepted, if and only if none is copied while more than 4096 are unread |
| `PipeRace.LagIsWindow` | kernel/ipc/pipe.c:46-54 | the count falls short of the unread bytes by exactly those accepted between a load of the count and the store after it |
| `PipeRace.QuietWindowsSafe` | kernel/ipc/pipe.c:46-54 | so if nothing is accepted in such a window, preemption does no harm |
| `PipeRace.OverrunReachable` | kernel/ipc/pipe.c:32-54 | otherwise it can: a run in which the second byte read is the one 4096 places too late |
| `Pipe.Pipe.constructor` | kernel/ipc/pipe.c:6-16 | an empty pipe without listener |
| `Pipe.Pipe.WriteByte` | kernel/ipc/pipe.c:32-44 | one round of the loop: the byte is last in the contents, and the step is the one of the interleaved model |
| `Pipe.Pipe.Write` | kernel/ipc/pipe.c:32-44 | the circular buffer takes the first bytes that fit and drops the rest, as the write of the interleaved model does, and hands out its listener |
| `Pipe.Pipe.ReadByte` | kernel/ipc/pipe.c:46-54 | takes the oldest byte off the contents |
| `Pipe.Pipe.Read` | kernel/ipc/pipe.c:46-54 | returns the oldest bytes, as many as asked for or there are, and removes exactly those |
| `Pipe.Pipe.AddListener` | kernel/ipc/pipe.c:56-61 | registers exactly when the slot is free |
| `ChannelIpc.TaskTable.Wake` | kernel/scheduler/scheduler.h:34-38 | READY only from BLOCKED |
| `ChannelIpc.TaskTable.Block` | kernel/scheduler/scheduler.h:39-43 | BLOCKED unless DEAD |
| `ChannelIpc.Channel.constructor` | kernel/ipc/channel.c:129-152 | the channel of a connecting process |
| `ChannelIpc.Channel.Send` | kernel/ipc/channel.c:154-178 | the caller's outbound pipe grows by the bytes that fit (what those are over a run: IpcStreams.ReceivedIsWhatWasSent), the peer's listener is removed and woken; a stranger changes nothing |
| `ChannelIpc.Channel.Recv` | kernel/ipc/channel.c:179-200 | the code is the number of bytes, or -1 as soon as the peer is closed, whatever the pipe holds; the bytes are the oldest of the inbound pipe |
| `ChannelIpc.Channel.SetListener` | kernel/ipc/channel.c:201-222 | registers the caller's side exactly when its slot is free |
| `ChannelIpc.Channel.Close` | kernel/ipc/channel.c:224-240 | marks the caller's side closed and wakes the peer's listener |
| `ChannelIpc.Channel.BlockingRecv` | kernel/cpu/syscall.c:575-589 | the whole of SYS_IPC_RECV up to the switch is the receive step of the runs; code and bytes are given, and it blocks exactly when it must wait |
| `Servers.Slot.constructor` | kernel/ipc/channel.c:22-29 | a free slot |
| `Servers.Slot.Enqueue` | kernel/ipc/channel.c:69-75 | the ring takes the connection last, and drops a seventeenth |
| `Servers.Slot.Dequeue` | kernel/ipc/channel.c:60-67 | the ring gives its oldest connection |
| `Servers.Slot.Serve` | kernel/ipc/channel.c:77-87 | the caller becomes the listener without blocking |
| `Servers.Slot.Connect` | kernel/ipc/channel.c:129-152 | queues the connection, wakes the listener and clears it |
| `Servers.Slot.Accept` | kernel/ipc/channel.c:88-110 | the oldest connection; or the caller waits exactly if none is pending and the slot is free |
| `TaskRing.ScanFinds` | kernel/scheduler/scheduler.c:42-78 | a scan stops at or before any READY task |
| `TaskRing.PickIsRunnable` | kernel/scheduler/scheduler.c:42-78 | who is picked is READY, or current and RUNNING, or idle; never BLOCKED or DEAD |
| `TaskRing.ScheduleKeeps` | kernel/scheduler/scheduler.c:123-140 | schedule keeps the ring and at most one RUNNING task, the current one (the states it leaves: TaskRing.ScheduleStates) |
| `TaskRing.ScheduleStates` | kernel/scheduler/scheduler.c:123-140 | schedule() changes two states at most: the task it leaves goes from RUNNING to READY, and the one it picks becomes RUNNING and current |
| `TaskRing.CloserOrCurrent` | kernel/scheduler/scheduler.c:42-78 | while a task is READY, every call makes it current or brings it strictly closer |
| `TaskRing.BoundedWaiting` | kernel/scheduler/scheduler.c:42-78 | with a fixed ring of n tasks and no deaths, a READY task is passed over by fewer than n calls, wherever the scan starts and whatever the others do |
| `TaskRing.KillTaskKeeps` | kernel/scheduler/scheduler.c:231-242 | killing a task removes exactly it from the ring, which stays valid if and only if another is left |
| `SleepQueue.InsertAt` | kernel/scheduler/scheduler.c:281-292 | an insertion goes after every entry that wakes no later and moves the rest up by one, so equal ticks stay in arrival order |
| `SleepQueue.InsertSorted` | kernel/scheduler/scheduler.c:281-292 | and keeps the queue sorted |
| `SleepQueue.InsertContents` | kernel/scheduler/scheduler.c:281-292 | and adds exactly the entry |
| `SleepQueue.WakeKeeps` | kernel/scheduler/scheduler.c:294-306 | a tick releases exactly the entries due, as a multiset |
| `SleepQueue.StaysUntilDue` | kernel/scheduler/scheduler.c:281-306 | over every run without a tick at or after its own, an entry stays |
| `SleepQueue.ReleasedWhenDue` | kernel/scheduler/scheduler.c:281-306 | the first such tick releases every copy of it |
| `SleepQueue.Queue.Enqueue` | kernel/scheduler/scheduler.c:281-292 | the shifting loop is the sorted insertion; full at 256 |
| `SleepQueue.Queue.MakeRoom` | kernel/scheduler/scheduler.c:281-292 | ends at the insertion place, with every later entry moved up by one and no other changed |
| `SleepQueue.Queue.Wake` | kernel/scheduler/scheduler.c:294-306 | readies exactly the due prefix in order, and moves the rest to the front |
| `SleepQueue.Queue.CountDue` | kernel/scheduler/scheduler.c:294-306 | counts exactly the due prefix and lists its tasks in order |
| `SleepQueue.Queue.ShiftLeft` | kernel/scheduler/scheduler.c:294-306 | the entries left start the array, in order |
| `SchedRuns.ExecKeeps` | kernel/scheduler/scheduler.c:123-306 | schedule, block, ready, sleep, tick and kill keep the invariant |
| `SchedRuns.RunSafe` | kernel/scheduler/scheduler.c:123-306 | over every run: only the current task is RUNNING, the ring has no dead task, the queue is sorted, and DEAD is never left |
| `SchedRuns.TickStates` | kernel/scheduler/scheduler.c:294-306 | after a tick exactly the BLOCKED tasks with a due entry have become READY |
| `SchedRuns.StateAfter` | kernel/scheduler/scheduler.c:123-306 | the state of every task after every action: blocked only by its own block or sleep, dead only by a kill, readied only from BLOCKED, preempted from RUNNING to READY |
| `SchedRuns.RunnableStays` | kernel/scheduler/scheduler.c:123-306 | over every run a runnable task stays runnable unless it blocks or sleeps itself or is killed |
| `SchedRuns.RunsInTurn` | kernel/scheduler/scheduler.c:42-140 | over every run without births and deaths in the ring, a waiting READY task is passed over by fewer calls than the ring has tasks, whatever blocks, wakes and ticks come between |
| `SchedRuns.PreemptedRunsAgain` | kernel/scheduler/scheduler.c:42-140 | so a running task that is preempted is READY, and runs again within that many calls |
| `Scheduler.AddRinged` | kernel/scheduler/scheduler.c:188-211 | the four link writes put the task just before the head |
| `Scheduler.RemoveRinged` | kernel/scheduler/scheduler.c:213-216 | the two link writes unlink exactly that task |
| `Scheduler.ScanEndsIff` | kernel/scheduler/scheduler.c:42-78 | after scheduler_remove of a dead task, the scan from the old head ends if and only if that task was alone, or was not the head, or some task left is READY |
| `Scheduler.Ring.constructor` | kernel/scheduler/scheduler.c:185-211 | the first task, linked to itself |
| `Scheduler.Ring.Add` | kernel/scheduler/scheduler.c:188-211 | links a new READY task last |
| `Scheduler.Ring.Remove` | kernel/scheduler/scheduler.c:213-242 | the task is dead and unlinked, and the ring with its head stays valid if and only if it was not the head |
| `Scheduler.Ring.Scan` | kernel/scheduler/scheduler.c:42-78 | the loops over next links compute the scan |
| `Scheduler.Ring.PickNext` | kernel/scheduler/scheduler.c:42-78 | computes the pick |
| `Scheduler.Ring.Schedule` | kernel/scheduler/scheduler.c:123-140 | changes states and current as the value-level schedule, whose states TaskRing.ScheduleStates and SchedRuns.StateAfter give |
| `LineSteps.StepsKeep` | user/lib/gfx.h:210-223 | as long as gfx_line's loop runs: within half a pixel, both coordinates in range, one step along the wider axis an iteration, and at the end exactly after max(dx, dy) iterations |
| `LineSteps.StepsClosed` | user/lib/gfx.h:210-223 | after k iterations the run is k along the wider axis, and beside it at k times the slope rounded to the nearest pixel, down on a tie |
| `LineRange.WideAttains` | user/lib/gfx.h:210-223 | on a wide line the error takes every multiple of the extents' greatest common divisor within half the width |
| `LineRange.TallAttains` | user/lib/gfx.h:210-223 | and on a tall one within half the height |
| `LineRange.RunFitsIff` | user/lib/gfx.h:205-223 | line by line: no value the loop computes overflows an int if and only if a condition on dx, dy and their greatest common divisor holds |
| `LineRange.SafeExtentIff` | user/lib/gfx.h:205-223 | all lines with extents up to b satisfy it if and only if b is at most 715827883 |
| `Line.PlotLine` | user/lib/gfx.h:203-223 | under that condition the loop on 32-bit integers ends after max(dx, dy) + 1 points, each where the exact run has it |
| `Line.DrawLine` | user/lib/gfx.h:203-231 | the points start and end at the given ends, neighbours differ by at most 1 on each axis, every point is within half a pixel of the ideal line, and the dirty rectangle has the size of the bounding box and its corner moved inside the top and left edges, so it covers every point not off those edges |
| `Checksum.FoldOnce` | kernel/net/ip.c:31-32 | folding the high half into the low one keeps the canonical residue mod 65535 |
| `Checksum.Fold` | kernel/net/ip.c:31-32 | the folding loop ends with that residue |
| `Checksum.IpChecksum` | kernel/net/ip.c:21-34 | the complement of the residue of the little-endian word sum, odd lengths included, without 32-bit overflow |
| `Checksum.AddSegment` | kernel/net/tcp.c:124-129 | adds the big-endian word sum, odd lengths included |
| `Checksum.TcpChecksum` | kernel/net/tcp.c:113-135 | the bytes it leaves in the header are those of the Internet checksum of pseudo-header and segment |
| `Checksum.SumsAgree` | kernel/net/tcp.c:124-129 | 256 times the little-endian sum is the big-endian sum mod 65535 |
| `Checksum.SumIsNumber` | kernel/net/tcp.c:124-129 | the big-endian sum is the message read as one number, mod 65535, with a zero byte behind an odd one |
| `Checksum.SameStoredBytes` | kernel/net/ip.c:21-34 | both byte orders leave the same two bytes in memory, for every byte string (section 2(B) of RFC 1071) |
| `Checksum.VerifiesIff` | kernel/net/ip.c:21-34 | a value in the zeroed aligned field makes the whole fold to 0xFFFF if and only if it is the checksum, or 0xFFFF where that is 0 |
| `Checksum.OneWordChange` | kernel/net/ip.c:21-34 | in a message that verifies, a change of one aligned word goes unseen exactly if it swaps 0 and 0xFFFF |
| `Checksum.SentSegmentVerifies` | kernel/net/tcp.c:137-145 | a header whose field was zero while summing verifies once the checksum is in it |
| `Calendar.DaysBeforeClosed` | kernel/io/rtc.c:61-62 | the day count of the year loop is the closed Gregorian formula |
| `Calendar.MonthStartClosed` | kernel/io/rtc.c:64-68 | the day count of the month loop is 59, the leap day and (153 (m - 3) + 2) / 5 from March on |
| `Calendar.YearFromExact` | user/lib/time.h:31-39 | the year loop of to_datetime only regroups days, until its 32-bit counter would wrap |
| `Calendar.MonthFromExact` | user/lib/time.h:41-51 | so does the month loop, and it stops inside the year |
| `Calendar.FromTimestampValid` | user/lib/time.h:21-54 | every timestamp gives a valid date |
| `Calendar.TimestampInverse` | user/lib/time.h:21-54 | the kernel's arithmetic undoes to_datetime if and only if the year fits the 32-bit counter |
| `Calendar.DateInverse` | kernel/io/rtc.c:54-76 | to_datetime undoes the kernel's arithmetic on every valid date from 1970 on with a 32-bit year |
| `Calendar.TimestampOrder` | kernel/io/rtc.c:54-76 | from 1970 on, timestamps are ordered as dates are |
| `Calendar.ToDatetime` | user/lib/time.h:21-54 | the loops compute that conversion |
| `Calendar.UnixTimestamp` | kernel/io/rtc.c:54-76 | the loops compute the timestamp mod 2^64, for month numbers up to 13 |
| `AmlBytes.PkgEndForward` | kernel/acpi/aml.c:173-183 | a package ends at or after its own length field if and only if the sum fits 32 bits, as it always does in spans up to 2^32 - 2^28 bytes |
| `AmlBytes.PkgEndBackward` | kernel/acpi/aml.c:173-183 | in a longer span it can point back |
| `AmlBytes.Jump` | kernel/acpi/aml.c:253-259 | leaving a package never goes back before its length field, nor past the span |
| `AmlBytes.NameEnd` | kernel/acpi/aml.c:192-224 | a name never ends before it starts nor past the span |
| `AmlSkip.SkipTerm` | kernel/acpi/aml.c:232-323 | on every byte string, stepping over a term entered before the end moves strictly ahead, and at most 8 bytes past the end; so the recursion ends |
| `AmlSkip.SkipTerms` | kernel/acpi/aml.c:266-284 | so do its operands |
| `AmlSkip.SkipExtended` | kernel/acpi/aml.c:286-309 | and extended terms |
| `AmlScan.ScanTerm` | kernel/acpi/aml.c:384-505 | one scanned term moves strictly ahead wherever its package length points, and keeps what every battery table satisfies: methods only with batteries seen, none in the fourth slot |
| `AmlScan.ScanBlock` | kernel/acpi/aml.c:389-422 | a scope or device is left at its end, its terms read in the span cut there |
| `AmlScan.ScanTerms` | kernel/acpi/aml.c:554-557 | a term list is read to the end of its span |
| `AmlScanner.Cursor.Read` | kernel/acpi/aml.c:166-168 | one byte inside the span, or 0 |
| `AmlScanner.Cursor.PkgLen` | kernel/acpi/aml.c:173-183 | the loop over length bytes computes end and next position |
| `AmlScanner.Cursor.NameSeg` | kernel/acpi/aml.c:186-189 | four bytes, padded with underscores |
| `AmlScanner.Cursor.NameString` | kernel/acpi/aml.c:192-224 | the last segment of the name and where it ends |
| `AmlScanner.Cursor.MultiName` | kernel/acpi/aml.c:210-218 | the same for a counted name |
| `AmlScanner.Cursor.SkipTerm` | kernel/acpi/aml.c:232-323 | the recursive switch refines SkipTerm; every byte it reads is inside its span |
| `AmlScanner.Cursor.SkipOperands` | kernel/acpi/aml.c:266-284 | as many terms skipped as the opcode takes operands |
| `AmlScanner.Cursor.SkipExtended` | kernel/acpi/aml.c:286-309 | the term after an extended prefix skipped as SkipExtended says |
| `AmlScanner.BatteryTable.constructor` | kernel/acpi/aml.c:148-149 | no battery |
| `AmlScanner.BatteryTable.Record` | kernel/acpi/aml.c:445-463 | a _BST or _BIF goes to the current slot if that has none yet and fewer than four batteries are counted; nothing else changes |
| `AmlScanner.BatteryTable.SeeBattery` | kernel/acpi/aml.c:498-503 | a battery is counted exactly if it is the first or the last one has its _BST, up to four |
| `AmlScanner.BatteryTable.ScanMethod` | kernel/acpi/aml.c:425-466 | leaves the cursor at the package end and attaches the body read there |
| `AmlScanner.BatteryTable.ScanName` | kernel/acpi/aml.c:469-505 | steps over name and value, and counts a battery exactly on a battery _HID |
| `AmlScanner.BatteryTable.ScanTerm` | kernel/acpi/aml.c:384-505 | the recursive scan refines ScanTerm |
| `AmlScanner.BatteryTable.ScanBlock` | kernel/acpi/aml.c:406-421 | scans the body through a cursor that cannot see past its end |
| `AmlScanner.BatteryTable.ScanTerms` | kernel/acpi/aml.c:554-557 | the loop ends, at the end of the span, with the table ScanTerms gives |
| `AmlScanner.BatteryTable.Scan` | kernel/acpi/aml.c:559-563 | a whole table, on top of what earlier ones left |
| `AmlScanner.MatchBatteryId` | kernel/acpi/aml.c:478-495 | the test of a _HID value, without reading past the span |
| `AmlEval.EvalTerm` | kernel/acpi/aml.c:666-818 | on every byte string, a term entered before the end and not done moves strictly ahead, keeps eight locals, and never undoes done |
| `AmlEval.EvalSimple` | kernel/acpi/aml.c:666-818 | the same for terms without subterms |
| `AmlEval.EvalIf` | kernel/acpi/aml.c:769-782 | a conditional is left at its end or its Else's end; AmlMeaning.IfExact and IfElseExact say what it does |
| `AmlEval.EvalPackage` | kernel/acpi/aml.c:640-651 | a package is left at its end |
| `AmlEval.EvalElements` | kernel/acpi/aml.c:645-648 | at most 16 elements |
| `AmlEval.TargetEnd` | kernel/acpi/aml.c:654-664 | a target is at least a byte |
| `AmlEvaluator.Evaluator.constructor` | kernel/acpi/aml.c:823-827 | zeroed locals at position 0 |
| `AmlEvaluator.Evaluator.PkgLen` | kernel/acpi/aml.c:596-606 | as for the scanner |
| `AmlEvaluator.Evaluator.NameString` | kernel/acpi/aml.c:608-634 | the position after a name |
| `AmlEvaluator.Evaluator.SkipTarget` | kernel/acpi/aml.c:654-664 | the position after a target |
| `AmlEvaluator.Evaluator.Store` | kernel/acpi/aml.c:710-720 | a local is assigned, any other target skipped |
| `AmlEvaluator.Evaluator.Adjust` | kernel/acpi/aml.c:753-766 | Increment and Decrement of a local, modulo 2^64 |
| `AmlEvaluator.Evaluator.EvalTerm` | kernel/acpi/aml.c:666-818 | the recursive switch refines EvalTerm; every byte it reads is inside its span |
| `AmlEvaluator.Evaluator.EvalSimple` | kernel/acpi/aml.c:666-818 | value, position and locals of a term without subterms |
| `AmlEvaluator.Evaluator.EvalIf` | kernel/acpi/aml.c:769-782 | ends after the conditional and an Else that follows it, keeping what the condition did to the locals |
| `AmlEvaluator.Evaluator.EvalPackage` | kernel/acpi/aml.c:640-651 | the element loop gives the package value and leaves at its end |
| `AmlEvaluator.RunMethod` | kernel/acpi/aml.c:822-834 | the loop computes the value of the first Return reached |
| `AmlSyntax.LengthFieldReads` | kernel/acpi/aml.c:173-183 | a package length encoded in one to four bytes is read back: the field ends where it should, and so does the package |
| `AmlMeaning.SkipExact` | kernel/acpi/aml.c:232-323 | the scanner steps over exactly the bytes of an encoded expression |
| `AmlMeaning.EvalExact` | kernel/acpi/aml.c:666-818 | the evaluator gets from those bytes exactly the value and locals of the expression's interpretation |
| `AmlExtent.SkipOneByteIff` | kernel/acpi/aml.c:232-323 | which terms the scanner takes to be one byte, on any bytes |
| `AmlExtent.TargetAgreesIff` | kernel/acpi/aml.c:654-664 | when a target is as long to the scanner as to the evaluator |
| `AmlExtent.OperandsIff` | kernel/acpi/aml.c:266-284 | for which opcodes the scanner steps over as many terms as the grammar of the ACPI specification has |
| `AmlExtent.SameEndIff` | kernel/acpi/aml.c:666-818 | over every byte string, on a term without subterms: scanner and evaluator end in the same place if and only if a condition on its opening bytes and the end of the span holds |
| `AmlMeaning.SameExtent` | kernel/acpi/aml.c:232-323 | on every encoded expression, subterms included, they do |
| `AmlMeaning.DualNameDiffers` | kernel/acpi/aml.c:315-322 | on an unprefixed name of two segments they do not: one byte against nine |
| `AmlMeaning.LogicalDiffers` | kernel/acpi/aml.c:272-278 | after a logical operator the scanner steps over its two operands and the expression that follows them, the evaluator over nothing |
| `AmlMeaning.PackageExact` | kernel/acpi/aml.c:640-651 | an encoded package gives its first 16 elements, evaluated in order |
| `AmlMeaning.IfExact` | kernel/acpi/aml.c:769-782 | an encoded If evaluates its condition, keeps what that did to the locals, and passes over whatever bytes its branch holds |
| `AmlMeaning.IfElseExact` | kernel/acpi/aml.c:769-782 | and with an Else over that too |
| `AmlMeaning.WhileExact` | kernel/acpi/aml.c:783-788 | an encoded While is passed over whole, its condition not evaluated |
| `AmlMeaning.StmtExact` | kernel/acpi/aml.c:666-818 | an encoded statement, conditionals and loops included, has its effect on the locals, or returns its value |
| `AmlMeaning.RunExact` | kernel/acpi/aml.c:822-834 | statements run in order to the first Return |
| `AmlMeaning.MethodMeaning` | kernel/acpi/aml.c:822-834 | running the bytes of a method body gives what the body means |
| `AmlStandard.OperationIff` | kernel/acpi/aml.c:666-818 | one operation is done as the ACPI specification says, for all operand values, locals, arguments and named objects, if and only if its syntax is faithful |
| `AmlStandard.ArithAgrees` | kernel/acpi/aml.c:724-742 | each arithmetic operation, NAnd and NOr apart and shifts below 64, is the specified one |
| `AmlStandard.NumberIs` | kernel/acpi/aml.c:674-689 | a constant of one to eight bytes is the number they write, low byte first |
| `AmlStandard.FaithfulIff` | kernel/acpi/aml.c:666-818 | every operation of an expression is, if and only if it reads no name or argument, stores into locals only, lets arithmetic store nowhere, uses neither NAnd nor NOr, and writes out shift counts below 64 and divisors other than 0 |
| `AmlStandard.InterpretIsDone` | kernel/acpi/aml.c:666-818 | the operations compared with the specification are the evaluator's: done one after the other they give the interpretation its bytes run to |
| `AmlStandard.FaithfulExpr` | kernel/acpi/aml.c:666-818 | a faithful expression gets its specified value, and leaves locals, arguments and names as specified, in every world |
| `AmlStandard.MaskedName` | kernel/acpi/aml.c:796-816 | the converse is about operations, not values: And(name, 0) comes out right although the name does not |
| `AmlStandard.StandardMethod` | kernel/acpi/aml.c:822-834 | a method of faithful statements, with packages of up to 16 elements, runs from its bytes to the value the specification gives, whatever arguments and names there are |
| `AmlStandard.StrippedMeans` | kernel/acpi/aml.c:769-788 | every method means what is left of it with each conditional cut down to its condition and each loop taken out |
| `AmlStandard.StrippedMethod` | kernel/acpi/aml.c:769-834 | so a method runs from its bytes to the value the specification gives to what is left, whatever its branches and loops hold, if that is faithful |
| `AmlStandard.BranchIgnored` | kernel/acpi/aml.c:769-782 | If (One) { Return (One) } returns nothing, where the specification returns 1 |
| `AmlStandard.AddTargetIgnored` | kernel/acpi/aml.c:724-742 | Add(1, 1, Local0) leaves Local0 alone, where the specification stores 2 |
| `AmlStandard.NamesReportZero` | kernel/acpi/aml.c:796-816 | a package of names evaluates to zeros, whatever they hold |
| `AmlTree.TextIdentifies` | kernel/acpi/aml.c:486-493 | a text is taken for a battery exactly if it starts with PNP0C0A |
| `AmlTree.PlainIdentifies` | kernel/acpi/aml.c:481-485 | a number exactly if it is the one looked for |
| `AmlTreeScan.ScanSkipped` | kernel/acpi/aml.c:384-404 | regions, mutexes, other packages and loose expressions are stepped over exactly |
| `AmlTreeScan.ScanMethod` | kernel/acpi/aml.c:425-466 | a method's body is recorded with its exact place and length |
| `AmlTreeScan.ScanName` | kernel/acpi/aml.c:469-505 | a name is stepped over, and counts a battery exactly when it should |
| `AmlTreeScan.ScanNode` | kernel/acpi/aml.c:384-505 | one encoded object, however deeply nested, is passed exactly and leaves the table a visit of it would |
| `AmlTreeScan.ScanFinds` | kernel/acpi/aml.c:559-563 | scanning an encoded namespace records for each battery exactly the method bodies a visit of the tree finds |
| `AmlBattery.RecordedInsideIff` | kernel/acpi/aml.c:425-463 | a recorded body lies inside its table if and only if name and flags end before the package does |
| `AmlBattery.ShortPackage` | kernel/acpi/aml.c:425-463 | a package length of 0 gives a recorded length of 2^32 - 6 |
| `AmlBattery.EisaIdNotMatched` | kernel/acpi/aml.c:475-485 | the EISA id of PNP0C0A is not the number the scanner compares with |
| `AmlBattery.NextBattery` | kernel/acpi/aml.c:445-463 | the next battery in order is counted, and its _BST kept exactly if it is not the fourth |
| `AmlBattery.AttachFields` | kernel/acpi/aml.c:445-463 | a method changes at most the _BST or _BIF of the current battery, by its name, and only where there was none |
| `AmlBattery.FirstKept` | kernel/acpi/aml.c:384-505 | over any namespace the first method of each kind is the one kept |
| `AmlBattery.FourthBatterySilent` | kernel/acpi/aml.c:445-463 | of four batteries all are counted, and the last has no _BST |
| `AmlBattery.EvalBst` | kernel/acpi/aml.c:840-853 | no report without a recorded method; otherwise state, rate, remaining capacity and voltage are elements 0 to 3 of the package it returns |
| `AmlBattery.EvalBif` | kernel/acpi/aml.c:855-867 | the same for _BIF: unit, design capacity, full capacity and design voltage are elements 0, 1, 2 and 4 |
| `AmlBattery.ConstantReport` | kernel/acpi/aml.c:840-853 | a _BST that returns a package of constants reports the first four, in order |
| `AmlBattery.BatteryReport` | kernel/acpi/aml.c:559-563 | from bytes to numbers: of an encoded namespace every recorded body lies inside the table, and a battery's report is what its _BST means |

## Left out

- Port and memory-mapped drivers, boot code, descriptor tables, context switching, TLB and CR3 instructions: no model of the hardware; only the state around them is kept.
- Sockets other than one connection pair, the tables of connections, listeners and ports, the backlog, retransmission and timers: the source has none of the last two, and the rest is table lookup; whether a port is listened to is a parameter.
- ARP, routing, UDP, DHCP, VFS, FAT32, processes, compositor, fonts and user interface: separate subsystems that the modelled ones do not rest on.
- `gfx_isqrt` and the other drawing functions of gfx.h: easier than the line.
- AML fields and embedded-controller values: the branch that records a field (kernel/acpi/aml.c:508-548) is not reached, because the test at line 389 takes every extended prefix first, so a name always evaluates to 0 and the model says so.
- AmlStandard.StrippedMethod: about what is left without branches and loops; the meaning the specification gives to those is shown in one case only (AmlStandard.BranchIgnored).
- The `present` flag of a battery slot and all logging: nothing reads them.
- Several AML tables in one battery table: the code of a method is recorded with its table, but the theorems on encoded namespaces are about one.
- TcpRuns.ReceivedIsPrefixOfSent: up to 2^32 - 1 sequence numbers per direction, sends of at most 4096 bytes, and receive buffers drained before they overflow; Tcp.RingExact shows that the last bound is exact.
- TcpLifetime.StreamsFromOpening: the same bounds.
- TcpLifetime.BufferedBeforeOpen: for at most 4096 bytes in all; Tcp.RingExact shows that the bound is exact.
- TcpSocket.TcpActive: with a free slot and port; the table lookup that refuses otherwise is left out.
- TcpSocket.TcpPassive: the same, for a port that is listened to with room in its backlog.
- TcpSocket.Socket.Flush: with fewer than 2^16 bytes buffered, without which its loop does not end (TcpSocket.FlushEndsIff).
- TcpSocket.Socket.React: the same bound, in the handshake states that flush.
- TcpSocket.Socket.OnData: the same bound, in the handshake states that flush.
- TcpSocket.Socket.Send: the same bound, when established.
- Checksum.TcpChecksum: about the address it is given; connections carry 0 as their local address.
- HeapRuns.KmallocServes: expansions stay inside the kernel heap window; above it the source would map over other ranges. Inside it a page count stays below 2^32, so the truncation of the 64-bit count at kernel/memory/heap.c:68 to the 32-bit parameter of pmm_alloc_pages does not arise and is not modelled.
- HeapRuns.ServesIff: the same window.
- HeapRuns.AssertFailsIff: the same window.
- Heap.KernelHeap.ExpandHeap: the same window.
- Heap.KernelHeap.FindOrExpand: the same window.
- Heap.KernelHeap.Kmalloc: the same window.
- Heap.KernelHeap.Kfree: of live payloads, as the source requires; it does not detect a double free.
- PageRights.MapPagesWords: for flags that leave the frame bits 12 to 51 of a word alone, as the PAGE_ constants do.
- PageRights.MapPagesRights: the same flags.
- Vmm.Memory.UnmapAndFreePages: for ranges whose words lead to no table frame; freeing a table in use breaks the tables of the source just so.
- Pmm.Allocator.ReserveRegion: for sizes below 2^31; a larger one becomes another int, and the loop visits other pages (Pmm.RegionPagesIff).
- Pmm.Allocator.Populate: the same bound.
- Pmm.Allocator.Init: the same bound; memory-map entries start at page boundaries and the kernel image lies in the mapped frames, as the boot loader provides.
- Ipc.NoLostWakeup: each system call is one step, and so is each half of one that blocks. The first halves do run with interrupts off; the second halves do not, and PipeRace says what that changes for one reader of a pipe. The second dequeue of ipc_accept (kernel/ipc/channel.c:103) can be preempted in the same way and is kept as one step. Two tasks of one process reading the same pipe at once are not modelled. Receives ask for at least one byte; Ipc.RecvKeepsIff says what happens otherwise. The two ends belong to different processes; Ipc.SelfChannelDeaf is about the other case.
- IpcStreams.ReceivedIsWhatWasSent: the same steps.
- PipeRace.PrefixIff: the decrement of the count is a load and a store, as in the source; where it is one instruction no window exists.
- Calendar.UnixTimestamp: month numbers up to 13, the last for which the source stays inside its month table.
- Line.DrawLine: for the lines of LineRange.RunFitsIff with extents below 2^31 - 1, as it adds 1 to each.
- AmlBattery.EvalBst: for bodies recorded inside their table; AmlBattery.RecordedInsideIff says which those are.
- AmlBattery.EvalBif: the same.
- AmlSkip.SkipTerm: spans of up to 2^32 - 2^28 bytes; AmlBytes.PkgEndForward gives the exact condition and AmlBytes.PkgEndBackward a longer span that breaks it.
- AmlScan.ScanTerm: the same spans.
- AmlEval.EvalTerm: the same spans; a shift by 64 or more is undefined in C; the model takes the count mod 64, as x86-64 does.
- AmlStandard.FaithfulIff: integers are 64 bits wide, as in tables of revision 2 and later; in a table of revision 1 the specification has 32.
- AmlStandard.StandardMethod: package elements are evaluated as expressions on both sides; the specification's own grammar has only data and names there.
- Outside the model: the clock, the random initial sequence number, the memory map and what the frame allocator grants are parameters.
