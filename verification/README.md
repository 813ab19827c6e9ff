# Masix kernel: a verified model

Masix is a small i686 kernel. It keeps almost all of its state in hand-written structures: a first-fit
heap in a static array, a table of 32 descriptors with pipes and unix and UDP sockets behind it, a block
file system in memory that is filled from a cpio archive at boot, a ring of tasks, and a keyboard ring
that is filled by an interrupt. This project models these structures and proves what they keep over
whole runs.

Each structure appears in up to three layers:

* a specification (`HeapSpec`, `FsSpec`, `CpioSpec`, `VfsSpec`, `TaskSpec`, `KernelSpec`): every
  operation as a function on values, with the code's branches, constants and error numbers;
* the code (`Heap`, `FileSystem`, `Cpio`, `Vfs`, `Tasks`, `Keyboard`, `Checksum`, `UdpEcho`, `Numbers`,
  `Kernel`): classes and methods that change arrays, linked headers, pointers and tables in place, each
  proved to compute the specified new state and result;
* theorems about the specification (`HeapTheorems`, `FsTheorems`, `FsStale`, `CpioTheorems`, `CpioWalk`,
  `UnpackTheorem`, `DescriptorTheorems`, `UdpTheorems`, `FlowTheorems`, `UnixTheorems`, `UnixStrangers`,
  `WritevTheorems`, `KernelSpec`): invariants, refinements and round trips over every run; and, in
  `StreamCalls`, `SocketCalls`, `AddressTheorems` and `EchoTheorems`, what a caller or a peer gets from each
  operation: which result, which bytes, and which error exactly when.

A system call is one atomic step. The keyboard is the exception: there interrupts may come between any
two steps of the reader.

`dafny verify dfyconfig.toml` checks everything.

## What turned out not to hold, and when it does

* **UDP ports are not always unique.** Automatic ports (49152 plus the descriptor number less 3) are not
  checked against explicit binds. `UdpTheorems.PortsCanCollide` gives a run from boot that ends with two
  open sockets on one port. `UdpTheorems.StepPortsExactly` says which calls cause this, and which never do.
* **A UDP socket is not always a FIFO queue.** Opening a socket resets the count of a reused slot, but
  not head and tail. `FlowTheorems.StaleDatagram` gives the runs from boot in which a socket reads a
  datagram of the slot's previous owner, `FlowTheorems.FirstInFirstOutExactly` the exact condition for a
  socket just opened, and `FlowTheorems.RunAlignedExactly` the exact condition for runs.
* **A unix connection can be heard by strangers.** Closing a socket leaves its number in the peer field
  of the other side, also once the slot has a new owner (`UnixStrangers.StalePeerExactly`), and
  `UnixStrangers.BytesReachAStranger` gives a run from boot in which that owner reads a byte meant for
  somebody else. `UnixTheorems.DeliversExactly` and `UnixTheorems.AcceptedConversationExactly` give the
  exact conditions for delivery, and `UnixTheorems.OrderKept` what holds without them.
* **The archive walk can go round for ever.** `CpioWalk.EndlessWalk` gives a memory, and
  `CpioWalk.WalkEndsExactly` the exact condition: the pointer meets a header twice. A pointer that wraps
  and goes backwards is followed, and need not lead into a circle (`CpioWalk.BackwardsWalkEnds`).
* **Writing to a file slot that is not in use can change other files**, because its entry still names
  blocks: `FsStale.StrayWrite`, with the exact condition in `FsStale.UnusedWriteExactly`. The kernel never
  calls fs_delete and opens used slots only.
* **A file can have a longer name than it was given.** The end of the old name of its slot shows behind a
  shorter one: `FsTheorems.OldNameShows`, with the exact condition in `FsTheorems.NameStoredExactly`.
* **An allocation can be too small.** The rounding of sizes above 2^32 - 4 wraps to 0:
  `HeapTheorems.ResultHoldsRequest`, `HeapTheorems.HugeRequestGetsNothing`. The callers in the kernel ask
  for 24, 40, 52 and 4096 bytes.
* **The checksum can be wrong for very long data**, exactly when the 32-bit sum overflows:
  `InternetChecksum.ExactUnlessOverflow`, `InternetChecksum.LongSumWrong`. Its only caller passes 20 bytes.
* **writev and write differ** when there is nothing to write and the other end is closed: writev returns
  0, write fails. `WritevTheorems.EmptyWritevDiffers` gives a run from boot,
  `WritevTheorems.WritevIsOneWriteExactly` the exact condition.
* **A read can deliver more than was written.** Reading ignores the recorded size of a file and delivers
  whole blocks. `FsTheorems.OneByteReadsBlock` reads 512 bytes where one was written,
  `FsTheorems.WholeReadExactly` says exactly when a whole read gives the data alone,
  `FsTheorems.SizeBoundsReadsExactly` when the size bounds every read, and `FsTheorems.ContentAfterWrite`
  which bytes come behind the data.

The repository's README.md (lines 17 to 22) promises local UDP and full unix stream sockets without
naming the first three of these limits; the model follows the code.

## Model

| member | source | states |
|---|---|---|
| `HeapTheorems.HistoryIndependence` | sys/kernel/alloc.c:26-77 | Two heaps with the same set of live blocks are the same block list: where allocations land does not depend on what was allocated and freed before. |
| `HeapTheorems.LiveDetermines` | sys/kernel/alloc.c:65-76 | The reason: a gapless list without two free neighbours is determined by its live blocks. |
| `HeapTheorems.RunsWithSameLiveBlocksAgree` | sys/kernel/alloc.c:26-77 | Two runs of malloc and free from the fresh heap, of any length, that leave the same blocks live leave the same list. |
| `HeapTheorems.RunWellFormed` | sys/kernel/alloc.c:26-77 | Over every run the blocks tile all 65536 bytes and no two free blocks touch. |
| `HeapTheorems.AllocFreeRestores` | sys/kernel/alloc.c:26-77 | Freeing what was just allocated restores the list exactly. |
| `HeapTheorems.FreeAllAnyOrder` | sys/kernel/alloc.c:59-77 | Freeing every live block, in whatever order, ends in the single free block of 65524 bytes. |
| `HeapTheorems.AllocWellFormed` | sys/kernel/alloc.c:36-55 | Splitting keeps the tiling and never leaves two free neighbours. |
| `HeapTheorems.AllocLive` | sys/kernel/alloc.c:36-55 | A success makes exactly one new block live, at most four words larger than asked for, and no other block is touched; a failure changes nothing. |
| `HeapTheorems.CoalesceSeparates` | sys/kernel/alloc.c:65-76 | One sweep is enough: afterwards no two neighbours are both free. |
| `HeapTheorems.FreeWellFormed` | sys/kernel/alloc.c:59-77 | Free keeps the tiling and takes exactly the block given back out of the live set. |
| `HeapTheorems.FirstFitComplete` | sys/kernel/alloc.c:38-56 | NULL exactly when no word-aligned stretch of memory outside live blocks can hold a header and the request, wherever it starts; otherwise the lowest place where such a stretch starts. |
| `HeapTheorems.ResultHoldsRequest` | sys/kernel/alloc.c:36 | The block holds the request, with at most 16 bytes over the rounded size, if and only if the request is at most 2^32 - 4 bytes: above that the rounding wraps. |
| `HeapTheorems.HugeRequestGetsNothing` | sys/kernel/alloc.c:36 | On the fresh heap a request of 2^32 - 1 bytes succeeds with a block of none. |
| `HeapTheorems.SplitExactly` | sys/kernel/alloc.c:41-49 | A chosen block is split exactly if what is left over holds a header and more than four bytes; the result is then as large as asked for, and otherwise the whole block. |
| `HeapTheorems.FreshHeap` | sys/kernel/alloc.c:13-34 | The fresh heap is one free block of 65524 bytes behind a header of 12. |
| `HeapAllocator.SpliceRepresents` | sys/kernel/alloc.c:17-21 | Rewriting the headers of neighbouring blocks inside their own bytes leaves every other header of the linked list intact. |
| `HeapAllocator.TakeRepresents` | sys/kernel/alloc.c:40-52 | The stores of a successful allocation turn linked headers for a list into linked headers for the list with that block carved out. |
| `HeapAllocator.TakeKeepsPayload` | sys/kernel/alloc.c:40-52 | Those stores touch no payload of a live block. |
| `HeapAllocator.MarkRepresents` | sys/kernel/alloc.c:62-63 | The single store of a free yields the headers of the list with that block free. |
| `HeapAllocator.MarkKeepsPayload` | sys/kernel/alloc.c:62-63 | That store touches no payload of a live block. |
| `HeapAllocator.MergeRepresents` | sys/kernel/alloc.c:68-71 | The two stores of a merge yield the headers of the merged list, with the same live blocks and payloads. |
| `HeapAllocator.PayloadWritesHarmless` | sys/kernel/alloc.c:13-21 | Whatever callers write into payloads they hold, the headers still describe the same list. |
| `HeapAllocator.SweepEnds` | sys/kernel/alloc.c:67 | When the sweep meets the NULL link, the whole list has been coalesced. |
| `HeapAllocator.Heap.Search` | sys/kernel/alloc.c:38-56 | Walking the next pointers finds the first block that fits, or NULL. |
| `HeapAllocator.Heap.Allocate` | sys/kernel/alloc.c:26-57 | alloc on memory words: the new list is the specified one, the result is the payload address or 0, live payloads are unchanged. |
| `HeapAllocator.Heap.Deallocate` | sys/kernel/alloc.c:59-77 | alloc_free on memory words: the new list is the specified one, payloads of the remaining blocks are unchanged, NULL does nothing. |
| `HeapAllocator.Heap.Sweep` | sys/kernel/alloc.c:65-76 | The coalescing loop terminates and reaches the fully coalesced list. |
| `FsTheorems.FreeBlockBelowCapacity` | sys/kernel/fs/filesystem.c:31-39 | While some file has an empty slot, one of the first 640 blocks is free (64 files of 10 slots against 2048 blocks, by pigeonhole). |
| `FsTheorems.HolderCodes` | sys/kernel/fs/filesystem.c:41-48 | Every used block below n has a holder of its own among the 640 slots. |
| `FsTheorems.CreateInv` | sys/kernel/fs/filesystem.c:50-64 | Creating keeps the ownership invariant: a bitmap bit is set exactly if one slot of one used file holds the block, held slots come first, the size fits in them. |
| `FsTheorems.DeleteInv` | sys/kernel/fs/filesystem.c:66-73 | Deleting keeps it too. |
| `FsTheorems.AcquireEffect` | sys/kernel/fs/filesystem.c:79-83 | A slot that needs a block always gets a fresh one, below 640, and no other file or slot changes. |
| `FsTheorems.StoreEffect` | sys/kernel/fs/filesystem.c:84-87 | Filling a block changes the bytes of that slot and of no other slot of any file. |
| `FsTheorems.WriteFromDone` | sys/kernel/fs/filesystem.c:78-90 | The write loop from any slot on stores the data into the right cells, keeps all others, and returns min(size, 5120). |
| `FsTheorems.WriteRefines` | sys/kernel/fs/filesystem.c:75-91 | fs_write overwrites the front of the file's contents, keeps the rest, changes the file-to-bytes map at this file only, records and returns min(size, 5120). |
| `FsTheorems.Refinement` | sys/kernel/fs/filesystem.c:50-104 | Every operation keeps the invariant and is a step of a simple map from slot to bytes, with the same return value and bytes read; a slot that is written is in use. |
| `FsStale.UnusedWriteExactly` | sys/kernel/fs/filesystem.c:75-91 | A write to a slot that is not in use keeps the invariant and all used files, whatever the data, if and only if every slot it goes through still names a block that no used file holds. |
| `FsStale.GrabBreaksInv` | sys/kernel/fs/filesystem.c:79-83 | A write to an unused slot that has to take a block marks one that no file holds. |
| `FsStale.StrayWrite` | sys/kernel/fs/filesystem.c:75-91 | On a fresh disk, a byte written to the unused slot 1 is then read from file 0. |
| `FsTheorems.ReadAfterWrite` | sys/kernel/fs/filesystem.c:75-104 | Reading up to as many bytes as a write returned gives back exactly those bytes. |
| `FsTheorems.ContentAfterWrite` | sys/kernel/fs/filesystem.c:75-104 | Every byte that can be read after a write: the data first, and behind them what the disk held at that place before, an old tail or the leftovers of a block just taken. |
| `FsTheorems.WholeReadExactly` | sys/kernel/fs/filesystem.c:75-104 | Reading all of a file after a write gives just the data, if and only if they fill whole blocks, at least as many as the file held, and fit in a file. |
| `FsTheorems.SizeBoundsReadsExactly` | sys/kernel/fs/filesystem.c:93-104 | The recorded size bounds what can be read, if and only if it is the length of the blocks held. |
| `FsTheorems.OneByteReadsBlock` | sys/kernel/fs/filesystem.c:93-104 | From an empty disk: one byte is written to a new file, its size recorded, and 512 bytes are read. |
| `FsTheorems.ShorterWriteKeepsTail` | sys/kernel/fs/filesystem.c:93-104 | After a shorter overwrite the old tail can still be read behind the new data. |
| `FsTheorems.Isolation` | sys/kernel/fs/filesystem.c:50-104 | No operation on one slot changes what can be read of another used file. |
| `FsTheorems.Run` | sys/kernel/fs/filesystem.c:50-91 | The ownership invariant holds in the last state of every run. |
| `FsTheorems.WritesNeverRunOut` | sys/kernel/fs/filesystem.c:79-83 | In every state a run can reach, a write to a used file never stops for lack of blocks. |
| `FsTheorems.FullDiskStops` | sys/kernel/fs/filesystem.c:80-81 | On a full disk a write that needs another block stops: it returns what it stored and records no size. |
| `FsTheorems.Sizes` | sys/kernel/fs/filesystem.c:10-14 | One megabyte in 2048 blocks, 64 slots, ten blocks and 5120 bytes a file. |
| `FsTheorems.DeletedEntryStays` | sys/kernel/fs/filesystem.c:66-73 | Deleting frees the slot and touches nothing else in it; deleting an unused slot does nothing. |
| `FsTheorems.NameStored` | sys/kernel/fs/filesystem.c:57-59 | A new file has the given name, byte for byte up to its end or 31 bytes; behind it the old name of the slot shows, and the last byte is NUL. |
| `FsTheorems.NameStoredExactly` | sys/kernel/fs/filesystem.c:57-59 | Read as a C string the name is the one given, cut to 31 characters, if and only if it has all 31 or the slot's old name has a NUL right behind. |
| `FsTheorems.OldNameShows` | sys/kernel/fs/filesystem.c:50-73 | From boot: after a file ab was created and deleted, a file created as c is named cb. |
| `FileSystemImpl.FileSystem.SetBlockUsed` | sys/kernel/fs/filesystem.c:23-25 | Setting one bit of a bitmap byte marks this block used and no other. |
| `FileSystemImpl.FileSystem.SetBlockFree` | sys/kernel/fs/filesystem.c:27-29 | Clearing one bit marks this block free and no other. |
| `FileSystemImpl.SetBit` | sys/kernel/fs/filesystem.c:24 | Which bits of a byte are set after or-ing in a mask. |
| `FileSystemImpl.ClearBit` | sys/kernel/fs/filesystem.c:28 | Which bits of a byte are set after masking one out. |
| `FileSystemImpl.FileSystem.AllocateBlock` | sys/kernel/fs/filesystem.c:31-39 | Takes the lowest free block, or returns -1 when there is none. |
| `FileSystemImpl.FileSystem.CreateFile` | sys/kernel/fs/filesystem.c:50-64 | First unused slot; name copied over the old one, at most 31 characters; -1 and no change when all are used. |
| `FileSystemImpl.FileSystem.DeleteFile` | sys/kernel/fs/filesystem.c:66-73 | Frees the blocks of a used file; an unused slot is left alone. |
| `FileSystemImpl.FileSystem.WriteFile` | sys/kernel/fs/filesystem.c:75-91 | The nested loops end in the state and return value of the specified write, including the early return without a size. |
| `FileSystemImpl.FileSystem.ReadFile` | sys/kernel/fs/filesystem.c:93-104 | The nested loops deliver exactly the readable bytes, up to the requested number. |
| `CpioTheorems.HexRoundTrip` | sys/kernel/main.c:57-69 | parse_hex_ascii reads back any 32-bit number printed in hexadecimal, in either case. |
| `CpioTheorems.HexDigitExactly` | sys/kernel/main.c:61-65 | Exactly the figures and the letters a to f, in either case, are digits. |
| `CpioTheorems.HexCharsSpelt` | sys/kernel/main.c:62-64 | The digits, spelt out in both cases. |
| `CpioTheorems.HexStops` | sys/kernel/main.c:66 | Parsing stops at the first character that is no digit, whatever follows. |
| `CpioTheorems.Spelt` | sys/kernel/main.c:76-120 | The magic number, the trailer and the names the walk compares with, as text. |
| `CpioTheorems.EntryDecoded` | sys/kernel/main.c:75-98 | The header of a serialised entry decodes to its name and data, and to the place of the next entry. |
| `CpioTheorems.ArchivePacked` | sys/kernel/main.c:71-126 | In memory that holds a serialised archive, every entry can be passed and the trailer stops the walk. |
| `CpioTheorems.WalkVisitsEntries` | sys/kernel/main.c:71-126 | Round trip: on a newc archive of any list of entries the walk visits exactly these, in order, with exact name and data slices, and ends at the trailer. |
| `UnpackTheorem.LoadOne` | sys/kernel/main.c:98-116 | Loading one more file fills the next slot and disturbs no earlier one. |
| `UnpackTheorem.UnpackRoundTrip` | sys/kernel/main.c:71-126 | Unpacking an archive of any entries onto the empty file system ends after visiting every one; slot i then holds the i-th of the first 64 non-empty files, named by the first 31 characters of its cleaned name, with its first min(size, 5120) bytes; every other slot is still unused; and init is the data of the last entry named bin/init, or unchanged. |
| `UnpackTheorem.InitFound` | sys/kernel/main.c:118-121 | Whatever the visits, the address and length of init give exactly the data of the last entry named bin/init or ./bin/init. |
| `UnpackTheorem.UnpackAtBoot` | sys/kernel/main.c:71-126 | The same of the code, on a disk as it is at boot. |
| `CpioSpec.ParseHexAscii` | sys/kernel/main.c:57-69 | The digit loop stops at the first character that is not a digit and keeps the low 32 bits. |
| `CpioUnpack.UnpackInitramfs` | sys/kernel/main.c:71-126 | The pointer loop over raw memory, wherever the pointer wraps to, loads exactly the files of the specified walk, in order, and remembers the last entry named bin/init. |
| `CpioUnpack.OutcomeStep` | sys/kernel/main.c:75-125 | One round of the loop and the rest of the walk make up the whole walk, forwards or backwards. |
| `CpioWalk.WalkFollows` | sys/kernel/main.c:75-125 | The visits are the headers the pointer goes through, in order, up to one at which the loop ends or at which it stands for the second time. |
| `CpioWalk.WalkEndsExactly` | sys/kernel/main.c:75-125 | For every memory: the loop goes on after any number of rounds if and only if it stands at some header twice, and the walk is reported as endless exactly then. |
| `CpioWalk.EndlessWalk` | sys/kernel/main.c:124 | A file size of 2^32 - 112 in a header without a name leads back to the header: the loop never ends. |
| `CpioWalk.BackwardsWalkEnds` | sys/kernel/main.c:75-77 | A size that leads backwards to a place without a header ends the loop in the next round. |
| `InternetChecksum.FoldIsOnesSum` | sys/kernel/drivers/rtl8139.c:56-62 | Adding plainly and folding at the end gives the one's-complement sum with end-around carry of section 1 of RFC 1071, for every length. |
| `InternetChecksum.OnesWitness` | sys/kernel/drivers/rtl8139.c:56-62 | That sum is the plain sum less a multiple of 65535, and zero only for zero. |
| `InternetChecksum.OnesUnique` | sys/kernel/drivers/rtl8139.c:60 | Only one 16-bit number can be the one's-complement value of a sum. |
| `InternetChecksum.ExactUnlessOverflow` | sys/kernel/drivers/rtl8139.c:56-62 | With 32-bit addition the result is the one's-complement checksum if and only if the sum of the words does not overflow 32 bits, for every length that 32 bits can express. |
| `InternetChecksum.ShortSumFits` | sys/kernel/drivers/rtl8139.c:57-59 | Up to 131074 bytes it does not overflow. |
| `InternetChecksum.LongSumWrong` | sys/kernel/drivers/rtl8139.c:57-59 | For 131076 bytes of 255 it does, and the result is wrong. |
| `InternetChecksum.ComputeChecksum` | sys/kernel/drivers/rtl8139.c:56-62 | The two loops terminate and return the checksum of the bytes, exactly unless the sum overflows. |
| `UdpEcho.TwoStepChecksum` | sys/kernel/drivers/rtl8139.c:97-98 | Writing the high byte first and recomputing over the changed header for the low byte still gives the same checksum, and the finished header sums to zero. |
| `UdpEcho.ReplyHeaderInOrder` | sys/kernel/drivers/rtl8139.c:86-105 | Every reply to a frame with a legal IP header, with or without options, carries five words of header that check out (section 3.1 of RFC 791), whatever the incoming checksum was. |
| `UdpEcho.EchoTwice` | sys/kernel/drivers/rtl8139.c:93-103 | Answering the answer restores addresses, ports, lengths and payload, with or without options and whatever the buffers held before; the UDP checksum stays cleared. |
| `EchoTheorems.EchoAnswers` | sys/kernel/drivers/rtl8139.c:86-105 | Every UDP datagram in a frame without options is answered with the whole frame back: to the sender's Ethernet address from that of the card, IP addresses and ports exchanged, the payload unchanged, under an IP header that is in order. |
| `EchoTheorems.AnsweredExactly` | sys/kernel/drivers/rtl8139.c:87-91 | A frame without options is answered if and only if it starts with a packed UDP datagram. |
| `EchoTheorems.AnswerAddressed` | sys/kernel/drivers/rtl8139.c:93-103 | With options too, each answer goes to the sender's Ethernet address, with IP addresses and ports exchanged and the payload unchanged. |
| `UdpEcho.EchoUdp` | sys/kernel/drivers/rtl8139.c:86-105 | The reply buffer filled byte by byte is the specified reply for every header length, the uninitialised bytes between header and UDP header included; frames that are too short, not UDP or inconsistent are dropped. |
| `UdpEcho.FillChecksum` | sys/kernel/drivers/rtl8139.c:97-98 | The two checksum stores leave the sealed header in the buffer and the Ethernet header alone. |
| `RingBuffer.PutAppends` | sys/kernel/fs/vfs.c:108-128 | Writing appends as much as fits to the pending bytes; at most 4096 are ever pending. |
| `RingBuffer.TakeRemoves` | sys/kernel/fs/vfs.c:98-106 | Reading removes the oldest pending bytes, in order. |
| `RingBuffer.PutSplits` | sys/kernel/fs/vfs.c:108-117 | One write of a concatenation is the two writes in turn, also when the ring fills part-way. |
| `StreamCalls.PipeReadDelivers` | sys/kernel/fs/vfs.c:98-106 | A read from a pipe returns and delivers the oldest bytes, as many as are asked for and pending, leaves the rest pending and changes nothing else. |
| `StreamCalls.PipeWriteQueues` | sys/kernel/fs/vfs.c:108-117 | A write to a pipe fails exactly if no read end is open; otherwise it queues as much as there is room for behind what is pending. |
| `StreamCalls.PipeMade` | sys/kernel/fs/vfs.c:349-370 | A new pipe is empty and connects the two lowest free descriptors, the reading one first. |
| `StreamCalls.UnixReadDelivers` | sys/kernel/fs/vfs.c:518-522 | Receiving on a unix socket, by recv or read, delivers the oldest bytes of its own queue and leaves the rest. |
| `StreamCalls.UnixSendQueues` | sys/kernel/fs/vfs.c:506-516 | Sending on a unix socket, by send or write, fails exactly if the peer is not open and connected; otherwise it queues as much as there is room for at the peer. |
| `StreamCalls.FileOffsetAdvances` | sys/kernel/fs/vfs.c:307-321 | Reading or writing a file moves its offset by what the file says it did, and nothing by an error. |
| `StreamCalls.WrongEndsRefused` | sys/kernel/fs/vfs.c:299-316 | The wrong end of a pipe, a device and a closed descriptor can be neither read nor written. |
| `StreamCalls.SysWriteServes` | sys/kernel/api.c:22-34 | The write system call takes everything on 1 and 2, is vfs_write for files, pipes and unix sockets from 3 on, and fails for the rest, UDP sockets among them. |
| `StreamCalls.OpenExactly` | sys/kernel/fs/vfs.c:231-297 | Opening fails for want of a descriptor, of memory, or of the file, in this order, and frees the node in the last case only; otherwise it takes the lowest free descriptor. |
| `StreamCalls.CloseExactly` | sys/kernel/fs/vfs.c:325-347 | Closing fails exactly for a descriptor that is not open, and frees this one and no other. |
| `StreamCalls.CloseDisconnects` | sys/kernel/fs/vfs.c:332-335 | Closing a unix socket frees its slot and disconnects the socket it points at; no queue is touched. |
| `StreamCalls.BootTables` | sys/kernel/fs/vfs.c:213-221 | At boot descriptors 0 to 2 are devices, the others free, and nothing is in use. |
| `StreamCalls.TableSizes` | sys/kernel/fs/vfs.c:15-24 | 32 descriptors, and eight each of pipes, unix sockets and UDP sockets. |
| `SocketCalls.UdpSocketExactly` | sys/kernel/fs/vfs.c:390-406 | A UDP socket is to be had exactly if a slot and a descriptor are left, and starts without address, port, peer and datagrams. |
| `SocketCalls.UnixSocketExactly` | sys/kernel/fs/vfs.c:407-420 | A unix socket likewise; it keeps the bytes and the path of the slot and nothing else. |
| `SocketCalls.OtherSockets` | sys/kernel/fs/vfs.c:407 | No other kind of socket exists. |
| `SocketCalls.UdpBindExactly` | sys/kernel/fs/vfs.c:423-437 | Binding fails exactly for a bad address or one that overlaps with that of another open socket. |
| `SocketCalls.DatagramExactly` | sys/kernel/fs/vfs.c:165-182 | A datagram is refused above 512 bytes, without a receiver, or by a full receiver, in this order; otherwise it joins the queue of the first socket it is for, with the sender's address and port. |
| `SocketCalls.SendToExactly` | sys/kernel/fs/vfs.c:524-533 | The address is checked first; a socket without a port then gets 49152 plus its descriptor less 3, and keeps it whatever becomes of the datagram. |
| `SocketCalls.ConnectThenSend` | sys/kernel/fs/vfs.c:456-471 | Connecting to an address and sending gives the result and the queues that sendto with that address gives. |
| `SocketCalls.UdpConnectRefused` | sys/kernel/fs/vfs.c:457-511 | A bad address connects nothing, and an unconnected socket does not send. |
| `SocketCalls.ReceiveExactly` | sys/kernel/fs/vfs.c:535-552 | Receiving fails exactly if nothing is queued; otherwise the oldest datagram goes whole, as much of it is delivered as was asked for, and its source only into 16 bytes or more. |
| `SocketCalls.UnixBindExactly` | sys/kernel/fs/vfs.c:438-444 | Binding fails exactly for a bad address or a path another open socket has. |
| `SocketCalls.ListenExactly` | sys/kernel/fs/vfs.c:447-454 | A socket listens exactly if it has a path. |
| `SocketCalls.UnixConnectExactly` | sys/kernel/fs/vfs.c:472-483 | Connecting fails exactly for a bad address or a path nobody listens at; otherwise the first listener there is the peer and has the client waiting. |
| `SocketCalls.AcceptExactly` | sys/kernel/fs/vfs.c:486-504 | Accepting fails exactly if nobody is waiting or no slot or no descriptor is left; without a descriptor the slot is taken all the same. |
| `SocketCalls.AcceptTakesTheClient` | sys/kernel/fs/vfs.c:489-491 | Right after an accept, whatever came of it, nobody is waiting. |
| `SocketCalls.ConnectThenAccept` | sys/kernel/fs/vfs.c:456-504 | A client that connects to the path of a listener is accepted next, if a slot and a descriptor are left, and the two are linked. |
| `SocketCalls.PeerGone` | sys/kernel/fs/vfs.c:506-514 | Once the accepted side is closed the client can send nothing more. |
| `SocketCalls.NoSocketRefused` | sys/kernel/fs/vfs.c:438-536 | Calls on descriptors that are no sockets, or of the wrong family, fail with -9. |
| `AddressTheorems.InetAddressExactly` | sys/kernel/fs/vfs.c:149-158 | For every family, port and IP address: taken exactly if the family is 2, the address 127.0.0.1 or 0.0.0.0 and the port not 0; the first test that fails gives the error. |
| `AddressTheorems.SourceAddressIs` | sys/kernel/fs/vfs.c:541-546 | recvfrom delivers the sender's address in the form sendto takes, and leaves the padding. |
| `AddressTheorems.UnixAddressExactly` | sys/kernel/fs/vfs.c:377-388 | For every family and path: the path is what stands before the first NUL or the end, at most 107 bytes, and is taken exactly if the family is 1 and it is not empty. |
| `AddressTheorems.ShortInetAddress` | sys/kernel/fs/vfs.c:150 | Less than eight bytes are no address. |
| `AddressTheorems.ShortUnixAddress` | sys/kernel/fs/vfs.c:378 | Less than three bytes are no path. |
| `VfsImpl.PutBytes` | sys/kernel/fs/vfs.c:108-128 | The byte-by-byte copy loop is the specified write into a ring. |
| `VfsImpl.TakeBytes` | sys/kernel/fs/vfs.c:98-106 | The byte-by-byte copy loop is the specified read from a ring. |
| `DescriptorTheorems.StepInv` | sys/kernel/fs/vfs.c:86-552 | Every system call keeps: each pipe end and each socket has at most one descriptor, a pipe is in use exactly while an end is open and counts its ends, a named socket is in use, a UDP slot is in use exactly if named. |
| `DescriptorTheorems.RunInv` | sys/kernel/fs/vfs.c:86-552 | So does every run. |
| `DescriptorTheorems.PipeCountsAreDescriptorCounts` | sys/kernel/fs/vfs.c:325-347 | In every reachable state reader and writer counts are the numbers of descriptors open on each side. |
| `DescriptorTheorems.UdpSlotHasOneDescriptor` | sys/kernel/fs/vfs.c:390-404 | In every reachable state a UDP slot is in use exactly if one descriptor names it. |
| `DescriptorTheorems.FailedPipeChangesNothing` | sys/kernel/fs/vfs.c:349-370 | A failing pipe call leaves occupied descriptors and used pipes as they were. |
| `DescriptorTheorems.PipeFailsWhenTablesAreFull` | sys/kernel/fs/vfs.c:349-370 | It fails exactly if no pipe or fewer than two descriptors are left. |
| `DescriptorTheorems.MakePipeInv` | sys/kernel/fs/vfs.c:349-370 | The invariant survives every exit path of vfs_pipe. |
| `DescriptorTheorems.CloseInv` | sys/kernel/fs/vfs.c:325-347 | And of vfs_close. |
| `DescriptorTheorems.AcceptInv` | sys/kernel/fs/vfs.c:486-504 | And of accept, also when a socket is taken but no descriptor is left for it. |
| `UdpTheorems.StepPortsExactly` | sys/kernel/fs/vfs.c:422-545 | A call keeps the ports of open UDP sockets unique if and only if it is not a connect or sendto that assigns an automatic port another open socket has. |
| `UdpTheorems.RunPorts` | sys/kernel/fs/vfs.c:422-545 | In every run without such a call no two open sockets share a port other than 0, and a socket without a port has an empty queue. |
| `UdpTheorems.RunPortsExactly` | sys/kernel/fs/vfs.c:422-545 | A run keeps ports unique throughout if and only if it contains no such call. |
| `UdpTheorems.RunUdp` | sys/kernel/fs/vfs.c:422-545 | Runs whose explicit binds stay outside 49152..49180 never contain such a call. |
| `UdpTheorems.PortsFromBoot` | sys/kernel/fs/vfs.c:422-545 | From boot, in such runs, no two open sockets share a port and one without a port has nothing queued. |
| `UdpTheorems.AutoPortExactly` | sys/kernel/fs/vfs.c:531 | Assigning an automatic port keeps ports unique if and only if no other open socket has taken it. |
| `UdpTheorems.PortsCanCollide` | sys/kernel/fs/vfs.c:463 | A run from boot, with one bind to 49152, after which two open sockets share that port. |
| `UdpTheorems.NetworkPortInvolution` | sys/kernel/fs/vfs.c:147 | The swap of the port bytes undoes itself. |
| `UdpTheorems.SourceAddressReadBack` | sys/kernel/fs/vfs.c:149-158 | The address bytes recvfrom delivers parse back to the datagram's source. |
| `UdpTheorems.SenderIsStamped` | sys/kernel/fs/vfs.c:165-182 | A datagram that is queued carries the loopback address and the sender's port, which is not 0. |
| `UdpTheorems.DestinationIs` | sys/kernel/fs/vfs.c:167-170 | With unique ports the first-match scan has only one match. |
| `UdpTheorems.ReplyReachesSender` | sys/kernel/fs/vfs.c:524-552 | A reply to the address recvfrom gave joins the queue of the socket the request came from; no other socket changes. |
| `UdpTheorems.RequestAndReply` | sys/kernel/fs/vfs.c:165-182 | The whole exchange, with any run free of collisions between sending and answering. |
| `FlowTheorems.PipesAreFifo` | sys/kernel/fs/vfs.c:98-117 | Over every run, bytes written to a pipe since it was made are the bytes read from it followed by those pending. |
| `FlowTheorems.UnixQueuesAreFifo` | sys/kernel/fs/vfs.c:119-137 | Over every run, bytes accepted into a unix socket's queue are the bytes read from it followed by those pending, across reuse of the slot. |
| `FlowTheorems.UdpQueuesAreFifo` | sys/kernel/fs/vfs.c:165-182 | Over every run, datagrams delivered to a socket with aligned positions are those received followed by those queued, whole and in order. |
| `FlowTheorems.PipesFromBoot` | sys/kernel/fs/vfs.c:98-117 | The same from boot, with at most 4096 bytes pending. |
| `FlowTheorems.UnixFromBoot` | sys/kernel/fs/vfs.c:119-137 | The same from boot for the queues of unix sockets. |
| `FlowTheorems.FirstInFirstOutExactly` | sys/kernel/fs/vfs.c:394-398 | A socket just opened, bound to a free port and sending to itself, reads back whatever it sends if and only if its slot had been left with head equal to tail: opening resets the count only. |
| `FlowTheorems.StaleDatagram` | sys/kernel/fs/vfs.c:394-398 | From boot, for every address and all data: when a socket is closed with a datagram unread, the next owner of the slot sends itself another and reads the old one. |
| `FlowTheorems.StepAlignedExactly` | sys/kernel/fs/vfs.c:325-347 | A call keeps open sockets aligned, and closed ones fit to be opened, if and only if it does not close a UDP socket whose queue is neither empty nor full. |
| `FlowTheorems.RunAlignedExactly` | sys/kernel/fs/vfs.c:325-347 | So a run goes through aligned states only, if and only if it closes UDP sockets with empty or full queues only. |
| `FlowTheorems.DrainedRunsAreFifo` | sys/kernel/fs/vfs.c:390-404 | In runs from boot that close UDP sockets with an empty or full queue, every open socket is a FIFO queue of at most eight whole datagrams. |
| `FlowTheorems.ReceivedFlow` | sys/kernel/fs/vfs.c:535-552 | A receive consumes one whole datagram, the oldest, however small the buffer. |
| `UnixTheorems.AcceptLinks` | sys/kernel/fs/vfs.c:486-504 | If accept returns a descriptor and the pending client is still connected, client and accepted socket are two distinct open connected sockets, each the other's peer. |
| `UnixTheorems.StreamStep` | sys/kernel/fs/vfs.c:506-522 | Any call other than connect, accept and close moves a queue on by exactly the bytes it puts in, from whatever descriptor, and the bytes it takes out. |
| `UnixTheorems.OrderKept` | sys/kernel/fs/vfs.c:506-522 | Over any run of such calls, whoever else points at the queue: what was queued followed by all that arrived is what was read followed by what is queued, and among what arrived the bytes of one sender are all it sent, in order. |
| `UnixTheorems.ChannelDelivers` | sys/kernel/fs/vfs.c:506-522 | If nobody else points at the queue, what was queued followed by everything sent is everything read followed by what is still queued. |
| `UnixTheorems.DeliversExactly` | sys/kernel/fs/vfs.c:506-522 | Every such run delivers exactly what was sent, if and only if no other descriptor points at the socket or it is no longer connected. |
| `UnixTheorems.AcceptedConversationExactly` | sys/kernel/fs/vfs.c:486-522 | After a handshake both directions deliver in order in every such run, if and only if, before accept, nobody but the client pointed at the first free slot or at the client's. |
| `UnixTheorems.AcceptedOrder` | sys/kernel/fs/vfs.c:486-522 | Whoever else points there, the bytes of either side keep their order among all that the other side reads. |
| `UnixTheorems.ReachedFromBoot` | sys/kernel/fs/vfs.c:213-229 | Every state a run from boot can reach satisfies what these theorems ask of the tables. |
| `UnixStrangers.StalePeerExactly` | sys/kernel/fs/vfs.c:334-337 | After one side of a connection is closed, the next socket takes over its slot if and only if all lower slots are in use; the other side then points at the new owner. |
| `UnixStrangers.BytesReachAStranger` | sys/kernel/fs/vfs.c:325-347 | A run from boot after which a byte sent by a client is read by a socket it was never connected to. |
| `WritevTheorems.VectorsAreOneWrite` | sys/kernel/syscall.c:120-145 | With the other end open, writev queues the same bytes and returns the same count as one write of the joined vectors, also when the ring fills part-way. |
| `WritevTheorems.WritevIsOneWriteExactly` | sys/kernel/syscall.c:120-145 | writev is one write of the joined vectors if and only if the other end takes data or some vector is not empty. |
| `WritevTheorems.EmptyWritevDiffers` | sys/kernel/syscall.c:120-145 | From boot, on a pipe whose read end has been closed: writev of nothing returns 0, a write of nothing -32. |
| `WritevTheorems.TerminalTakesAll` | sys/kernel/syscall.c:130-145 | On the terminal writev returns the length of all vectors. |
| `WritevTheorems.UnservedRefused` | sys/kernel/syscall.c:128-141 | Where nothing is served the first non-empty vector gives -9; so does a missing array. |
| `WritevTheorems.VectorsRefused` | sys/kernel/syscall.c:134-141 | On a closed end nothing is queued, and the first non-empty vector decides the result. |
| `VfsImpl.VfsTables.AllocateFd` | sys/kernel/fs/vfs.c:86-96 | Takes the lowest empty descriptor from 3 on, or returns -24. |
| `VfsImpl.VfsTables.Close` | sys/kernel/fs/vfs.c:325-347 | The tables after vfs_close, and the node it frees. |
| `VfsImpl.VfsTables.MakePipe` | sys/kernel/fs/vfs.c:349-370 | The tables and descriptors after each exit path of vfs_pipe. |
| `VfsImpl.VfsTables.PipeReads` | sys/kernel/fs/vfs.c:98-106 | The oldest pending bytes leave this pipe, in order; no other entry of any table changes. |
| `VfsImpl.VfsTables.PipeWrites` | sys/kernel/fs/vfs.c:108-117 | What fits is appended to this pipe, -32 without readers; no other entry of any table changes. |
| `VfsImpl.VfsTables.QueueWrite` | sys/kernel/fs/vfs.c:119-128 | What fits is appended to this socket's queue, -107 unless it is connected; nothing else changes. |
| `VfsImpl.VfsTables.QueueRead` | sys/kernel/fs/vfs.c:130-137 | The oldest bytes leave this socket's queue, also once it is disconnected; nothing else changes. |
| `VfsImpl.VfsTables.MakeSocket` | sys/kernel/fs/vfs.c:390-420 | vfs_socket for both families, with its errors and what reuse of a slot keeps. |
| `VfsImpl.VfsTables.InetSend` | sys/kernel/fs/vfs.c:165-182 | Size check, first match, full queue and delivery of inet_send, in this order. |
| `VfsImpl.VfsTables.SendTo` | sys/kernel/fs/vfs.c:524-533 | The address is checked before the automatic port is assigned, and the port stays assigned when delivery fails. |
| `VfsImpl.VfsTables.RecvFrom` | sys/kernel/fs/vfs.c:535-552 | One datagram leaves the queue whole, however little of it is copied; the source address is delivered only into 16 bytes or more. |
| `VfsImpl.VfsTables.Bind` | sys/kernel/fs/vfs.c:422-445 | A port is refused exactly if another open socket has it on an overlapping address, a path exactly if another open socket has it; a socket may be bound again. |
| `VfsImpl.VfsTables.Connect` | sys/kernel/fs/vfs.c:456-484 | The first listening socket with the path becomes the peer, and a later client replaces a pending one; UDP sockets get a port and a peer. |
| `VfsImpl.VfsTables.Accept` | sys/kernel/fs/vfs.c:486-504 | The pending client and the first free slot become each other's peers; the slot stays taken when no descriptor is left. |
| `VfsImpl.VfsTables.Send` | sys/kernel/fs/vfs.c:506-516 | Bytes go into the peer's queue if the peer is open, datagrams to the connected address. |
| `VfsImpl.VfsTables.Writev` | sys/kernel/syscall.c:120-145 | The writev loop: the running total, the skipped vectors, the early error return and the missing array. |
| `VfsImpl.SocketAddress` | sys/kernel/fs/vfs.c:377-388 | The path copy loop stops at the first NUL, the end of the address or 107 bytes; errors as in the code. |
| `TaskSpec.StepWellFormed` | sys/kernel/task.c:34-143 | Creation, fork, exit and the timer keep one ring with a current task and distinct pids. |
| `TaskSpec.NewcomerBehindHead` | sys/kernel/task.c:66-67 | A new task goes right behind the head with a number nobody else has; the others keep their order, and the same task runs. |
| `TaskSpec.TickRunsNext` | sys/kernel/task.c:71-74 | A tick hands over to the next task of the ring and changes nothing else. |
| `TaskSpec.ExitRunsNext` | sys/kernel/task.c:127-133 | When a task exits the one behind it runs; the others keep their order. |
| `TaskSpec.ExitedIsGone` | sys/kernel/task.c:127-133 | Exactly the task that exits leaves the ring. |
| `TaskSpec.FirstTask` | sys/kernel/task.c:21-32 | The first task runs alone, and numbers are given out one after the other. |
| `TaskSpec.DistanceStep` | sys/kernel/task.c:66-74 | A tick or the exit of another task brings a waiting task one place nearer; an insertion sets it back by at most one. |
| `TaskSpec.Reached` | sys/kernel/task.c:71-74 | A waiting task runs once there were as many ticks as tasks ahead of it and insertions. |
| `TaskSpec.BoundedWaiting` | sys/kernel/task.c:71-74 | A task that runs and does not exit runs again by the time there were as many ticks as tasks in the ring and insertions since. |
| `TaskImpl.Scheduler.constructor` | sys/kernel/task.c:21-32 | task_init leaves a ring of one task, the head and the current one. |
| `TaskImpl.Scheduler.Schedule` | sys/kernel/task.c:71-74 | The next pointer leads to the next task of the ring. |
| `TaskImpl.Scheduler.Insert` | sys/kernel/task.c:66-67 | Two pointer stores put the new task behind the head of the one cycle. |
| `TaskImpl.Scheduler.FindPrevious` | sys/kernel/task.c:122-125 | The predecessor search terminates, at the task before the current one. |
| `TaskImpl.Scheduler.Destroy` | sys/kernel/task.c:113-137 | Unlinking leaves one cycle of the other tasks with head and current in it; which three addresses are freed, in order; the last task never leaves. |
| `TaskImpl.RingWithout` | sys/kernel/task.c:127-133 | Once its predecessor skips a task, the tasks that stay form one ring in the old order. |
| `KernelSpec.HeapAccounting` | sys/kernel/fs/vfs.c:231-347 | In every reachable state the number of heap blocks in use is the number of mount points plus open files plus the blocks of the tasks, each held exactly once: none leaked, none freed twice. It is three per task if and only if every allocation for the tasks in the ring succeeded. |
| `KernelSpec.ThreeEachExactly` | sys/kernel/task.c:21-39 | A ring has three blocks per task if and only if none of its tasks lacks one. |
| `KernelSpec.Step` | sys/kernel/fs/vfs.c:196-347 | Each step that crosses the heap, the descriptors and the tasks keeps the books balanced. |
| `KernelSpec.BootInv` | sys/kernel/fs/vfs.c:213-229 | The books balance after vfs_init with its two mount points and task_init on the fresh heap. |
| `KernelSpec.BootComplete` | sys/kernel/task.c:21-28 | The five allocations at boot succeed. |
| `KernelSpec.OpenFileInv` | sys/kernel/fs/vfs.c:231-297 | Every exit path of vfs_open either gives the node to a descriptor or frees it. |
| `KernelSpec.CloseFileInv` | sys/kernel/fs/vfs.c:325-347 | What vfs_close frees is a live block, and the one the descriptor held. |
| `KernelSpec.OpenFileExactly` | sys/kernel/fs/vfs.c:231-297 | Opening fails for want of a descriptor, of memory or of the file, and then no block more is in use; otherwise the descriptor has a block of its own, large enough for a node. |
| `KernelSpec.CloseFileExactly` | sys/kernel/fs/vfs.c:325-347 | Closing gives back exactly the node of the file, and nothing for other descriptors. |
| `KernelSpec.NewTaskFits` | sys/kernel/task.c:34-39 | A new task has 24 bytes for itself and 4096 for each stack that could be allocated. |
| `KernelSpec.MountFits` | sys/kernel/fs/vfs.c:196-206 | A mount point has 40 bytes and comes before those mounted earlier. |
| `KernelSpec.NewTaskInv` | sys/kernel/task.c:34-69 | A new task takes over the blocks that could be allocated, which nobody else holds; a stack that could not be is NULL. |
| `KernelSpec.ForkInv` | sys/kernel/task.c:76-83 | A fork fails exactly if the task cannot be allocated, and then changes nothing; otherwise the child takes over the blocks that could be, which nobody else holds. |
| `KernelSpec.EndTaskInv` | sys/kernel/task.c:135-137 | The blocks a dead task frees are live, distinct and its own; a NULL stack frees nothing. |
| `KernelSpec.MountInv` | sys/kernel/fs/vfs.c:196-206 | A mount point takes over one block, or nothing changes. |
| `KernelSpec.OtherCallInv` | sys/kernel/fs/vfs.c:299-552 | No other system call moves an open file or touches the heap. |
| `KernelImpl.Machine.OpenFile` | sys/kernel/fs/vfs.c:231-297 | vfs_open on the memory words and the descriptor array together is the specified step. |
| `KernelImpl.Machine.CloseFile` | sys/kernel/fs/vfs.c:325-347 | vfs_close on the same state is the specified step; what it frees is a live block. |
| `KernelImpl.BootMachine` | sys/kernel/main.c:232-265 | vfs_init and task_init on memory words, tables and the pointer ring end in the boot state of the accounting. |
| `KernelImpl.Machine.NewTask` | sys/kernel/task.c:34-69 | Task creation on the memory words and the pointer ring is the specified step. |
| `KernelImpl.Machine.Fork` | sys/kernel/task.c:76-108 | task_fork likewise, with -12 when the task cannot be allocated. |
| `KernelImpl.Machine.EndTask` | sys/kernel/task.c:113-137 | Task exit likewise, except for the last task. |
| `KeyboardRing.NothingLost` | sys/kernel/drivers/keyboard.c:40-78 | Under any interleaving of interrupts with the test, read and advance steps of one reader, the characters returned are the accepted ones in order, and at most 255 wait. |
| `KeyboardRing.NothingLostFromBoot` | sys/kernel/drivers/keyboard.c:40-78 | The same from the empty ring. |
| `KeyboardRing.FoundIsSafe` | sys/kernel/drivers/keyboard.c:69-78 | Once the reader has found a character no number of interrupts overwrites it before it is taken. |
| `KeyboardRing.GetcReturnsOldest` | sys/kernel/drivers/keyboard.c:69-78 | With a character waiting, three steps of the reader and any interrupts in between deliver the one that has waited longest, and that only. |
| `KeyboardRing.GetcWaits` | sys/kernel/drivers/keyboard.c:70-71 | While nothing waits the reader goes on testing. |
| `KeyboardRing.StepInv` | sys/kernel/drivers/keyboard.c:40-78 | Each single step keeps this, wherever the reader stands. |
| `KeyboardRing.PushAppends` | sys/kernel/drivers/keyboard.c:40-46 | A push appends unless 255 characters wait already. |
| `KeyboardRing.AdvanceDrops` | sys/kernel/drivers/keyboard.c:73 | Advancing drops the oldest character and no other. |
| `KeyboardRing.Keyboard.KbdPush` | sys/kernel/drivers/keyboard.c:40-46 | The handler's stores are the atomic push the run theorems speak of; with 255 characters waiting nothing is stored. |
| `KeyboardRing.Keyboard.Test` | sys/kernel/drivers/keyboard.c:71 | The test succeeds exactly if a character is waiting. |
| `KeyboardRing.Keyboard.Fetch` | sys/kernel/drivers/keyboard.c:72 | Reads the oldest waiting character. |
| `KeyboardRing.Keyboard.Release` | sys/kernel/drivers/keyboard.c:73 | The rest of the waiting characters stay. |
| `Numbers.DecimalRoundTrip` | sys/kernel/klibc.c:147-168 | atoi(itoa(v, 10)) is v for every 32-bit v but -2^31, with every intermediate value in range. |
| `Numbers.HexadecimalRoundTrip` | sys/kernel/klibc.c:147-162 | parse_hex_ascii(itoa(v, 16)) is v for every v >= 0. |
| `Numbers.DigitsMean` | sys/kernel/klibc.c:152-156 | In every base from 2 to 36 the digits stand for the number, and do not start with a zero. |
| `Numbers.DigitSpelt` | sys/kernel/klibc.c:154 | The digits are the figures and the capital letters. |
| `Numbers.NegativeDigits` | sys/kernel/klibc.c:152-156 | The digits of a negative number in a base other than ten are those of its absolute value, each taken off the character 0. |
| `Numbers.NegativeText` | sys/kernel/klibc.c:151-157 | Only in base ten is there a minus sign. |
| `Numbers.ScratchSuffices` | sys/kernel/klibc.c:148 | The 33-byte scratch buffer holds every number in every base from 2 to 36. |
| `Numbers.DigitsFit` | sys/kernel/klibc.c:152-156 | No base needs more digits than base two. |
| `Numbers.Itoa` | sys/kernel/klibc.c:147-162 | The digit loop, the sign and the reversal leave the printed text and its terminator in the buffer, and the rest of the buffer alone, for every base and sign. |
| `Numbers.FillDigits` | sys/kernel/klibc.c:152-156 | The digit loop stays inside the scratch buffer and fills it from the lowest digit up. |
| `Numbers.CopyReversed` | sys/kernel/klibc.c:158-161 | The last loop writes the digits the right way round. |
| `Numbers.Atoi` | sys/kernel/klibc.c:163-168 | The accumulation loop with its sign computes the value of the string without overflow. |

## Left out

- KernelImpl.Machine.NewTask: requires that the task itself can be allocated; task_init and task_create write to it without a check.
- What task_create and task_fork write through a stack that is NULL, at the bottom of memory.
- TaskSpec.BoundedWaiting: pids are unbounded numbers, so a wrap of next_pid after 2^32 tasks is not covered.
- UdpEcho.ReplyHeaderInOrder: IP headers of fewer than five words, which RFC 791 does not allow: the UDP header then overwrites part of the header, and what is sent is given by UdpEcho.Reply alone. With options, the words behind the first five are not part of the code's checksum.
- FsTheorems.Refinement: a write to a slot that is not in use is no step of the simple store; FsStale.UnusedWriteExactly says what it does.
- Numbers.Itoa: -2^31 in base ten is not covered; negating it is undefined in C.
- Numbers.Atoi: overflow of int is undefined in C, so strings that lead to it are excluded.
- HeapAllocator.Heap.Deallocate: the address must be NULL or that of a live block; the code trusts its callers with this.
- VfsImpl.VfsTables.Open: the lookup of a path in the mount points and in the file table is a parameter, the result it had.
- VfsImpl.VfsTables.Read: what a file's own read returns is a parameter, since file offsets are ignored by the ram file system; devtmpfs and procfs readers are left out.
- VfsImpl.VfsTables.Write: what a file's own write returns is a parameter, for the same reason.
- VfsImpl.VfsTables.SysWrite: characters on the terminal are not modelled.
- CpioUnpack.UnpackInitramfs: stops with `done` false at the header where the code starts to go round for ever; memory does not change while it is unpacked, and the console messages are left out.
- Rings, datagram queues and file entries are values inside the elements of the tables: updates within one entry are not modelled as separate stores, and two entries never alias.
- Pointers to pipes and sockets in descriptors are table indices; heap addresses are byte numbers, with the headers stored as words.
- Uniqueness of unix paths after slot reuse: no property is claimed.
- Task state, stack contents, fork's copying of stacks and registers, execve and the context switch.
- vfs_init's clearing of the descriptor table beyond its result, and mount point paths.
- Preemption inside a system call.
- Keyboard scancodes, shift handling and the busy wait of the reader.
- Device registers, PCI probing, ARP, frame reception and transmission, and padding of short frames.
- Segment tables, interrupt and timer set-up, boot information, the console, the serial port, the shell and the configuration program.
- llseek and the system calls that only return constants.
