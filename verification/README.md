# sysrv: verified model

A Dafny model of the parts of the sysrv RISC-V kernel that bring a machine up, and proofs about
them: the devicetree parser, the eternal heap it allocates from, the page allocator whose bitmap
comes from the same heap, the spinlock, the Sv39 page-table walk with the boot mapper, and the
formatted printer. `dafny verify dfyconfig.toml` checks everything.

## How the model is laid out

| files | what they hold |
|---|---|
| `Words`, `KernelString` | bytes, 32-bit reads, C strings; the string loops of the kernel library |
| `EternalHeap` | the bump heap, and which runs keep its blocks apart |
| `FdtFormat` | trees, token streams and bytes of a structure block (Devicetree Specification v0.4, section 5.4) |
| `FdtParser`, `FdtDriver` | the parser's state and one loop iteration; the driver's methods, which change the tree in place |
| `FdtStream`, `FdtBuild`, `FdtChain`, `FdtRoundTrip`, `FdtReader`, `FdtCut`, `FdtEncode`, `FdtHeap` | bytes to actions, actions to heap image, parent links, the heap image of an encoded tree, what a reader of the tree sees, what is left of a tree cut short, writing a tree and reading it back, where the blocks lie |
| `PageBitmap`, `PageRuns`, `PageAllocator` | bits and the scan; whole runs; the allocator's methods and region arithmetic |
| `Spinlock` | the lock as interleaved memory accesses |
| `Sv39` | the walk, the architecture's translation, the boot mapper |
| `Numbers`, `Printf` | printed numbers; the format interpreter and a grammar of formats |
| `Boot` | the order of `srv_arch_Init` |

Code that changes state is a class with methods, each proved against a function of the old state;
the theorems are about those functions. Pointers into the heap are addresses with 0 for NULL, and
the parser's nodes live in a map from address to record, so a pointer tree with parent links, and
heap addresses, are both visible. Pointers into the devicetree blob are offsets into it. The heap is
assumed to hold zeroes, which the code relies on for free slots and for the bitmap.

Using a NULL node or reading outside the blob is the outcome `Fault`; a kernel panic is an outcome
too. Both stop the model.

## Where the code and its intent part

The code is modelled as it stands. For each difference, the lemmas named first show an input on which
it matters, and those named after "exactly" say when it does no harm.

* `kpalloc.c:106` sets bit 0 of the whole bitmap when an entry is empty. `Variant` selects the line as
  written or the bit its comment names. `SamePageTwice` is a run from a fresh allocator that hands out
  a held page. Ownership and accounting hold exactly on runs where each allocation finds entry 0, or
  an entry with a bit set, as its first entry with room (`RunOwnedIff`, `RunBalancedIff`), and a
  drain is right exactly when no entry past the first is empty (`DrainsInOrderIff`).
* `fdt.c:185` compares with the size field without a byte swap. `LongPropertyCutShort` is a blob whose
  structure block of 65536 bytes is left after 256, with the root open. The tree is parsed to its end
  exactly under the condition of `CompleteIff`; `SwappedBound` and `SizeFieldSuffices` relate it to the
  bytes of the field, and `ShortBlocksComplete` finds it met by every block below 65536 bytes. What a
  shorter parse leaves, and the memory size then reported, is in `ParseLeaves` and `ReadBackLeft`.
* `fdt.c:203-213` makes the root its own first child. `SixteenthChildLost` is a root with 16 children;
  the tree comes back exactly within the caps, 15 children for the root (`ReadBack`).
* `fdt.c:248` and `fdt.c:295` follow empty slots. `NullFollowed` gives a blob for each; `MemorySizeOfTree`
  says exactly what is reported for every tree, and which trees lead to a NULL pointer.
* `kalloc.c:42` adds the residue rather than the distance to the boundary. `RealignMisses` is an address
  it leaves unaligned; exactly when: `RealignResidue`. The 64-bit sum in `kalloc.c:23` can wrap:
  `HugeSizeOverlaps`; exactly when blocks stay apart: `RunDisjointIff`.
* `spinlock.c:44-45` clears the flag before the owner. `RightfulPanicHappens` is a run of two CPUs in
  which a holder panics; exactly when: `RightfulPanicIff`. With the other order none does
  (`ResetFirstNeverPanics`).
* `spinlock.c:30` stores the CPU number 0xFFFFFFFF as the value for "nobody". `TwoHolders` is a run in
  which that CPU and any other hold the lock together. Mutual exclusion holds exactly for sets of
  CPUs without it, or with it alone (`ExcludesIff`); wrongful releases all panic exactly for sets
  without it (`StopsStrangersIff`).
* `stdio.c:30` zeroes negative numbers, and decimals come out least significant digit first
  (`DecimalSamples`, `DecimalBackwards`); a number that is not negative reads right exactly when its
  digits are a palindrome (`DecimalReadsIff`). A format that ends inside a directive is read past its
  end (`DanglingPercent`); exactly when not: `StopsAtNulIff`.
* `init.c:47-55` reserves whole pages from a rounded-down start. `TailsUncovered` has regions that stick
  out; `CoversIff`, `CoversExactIff` and `BlobCoveredIff` say exactly when the bytes are covered.

`rv64_vm.h` is not part of this model; the Sv39 constants are shifts 30, 21 and 12, mask 0x1FF, three
levels.

## Model

| member | source | states |
|---|---|---|
| FdtRoundTrip.RoundTrip | kernel/drivers/fdt/fdt.c:175-240 | for every encoded tree, with NOPs between any tokens, the parse leaves exactly the tree's image in the heap, advances the cursor by its size, and ends with an empty parent chain; it panics exactly when the size does not fit |
| FdtReader.ReadBack | kernel/drivers/fdt/fdt.c:112-240 | following the pointers gives back names, properties, children and order; past 15 root children, 16 children or 16 properties the first ones are kept; the encoded tree itself comes back exactly when it is within those caps |
| FdtEncode.ReadsWhatIsWritten | kernel/drivers/fdt/fdt.c:175-274 | decode of encode: for every tree, written as a blob with any placing of NOPs, the pointer tree read back spells out what the caps keep of that tree and nothing else; that is the tree exactly within the caps |
| FdtEncode.SixteenthChildLost | kernel/drivers/fdt/fdt.c:203-213 | the blob of a root with 16 children comes back with 15 |
| FdtEncode.SizeFieldSuffices | kernel/drivers/fdt/fdt.c:185 | the bytes of the size field for which the loop reaches the end of a written tree |
| FdtEncode.ShortBlocksComplete | kernel/drivers/fdt/fdt.c:185 | every written structure block below 65536 bytes is parsed to its end |
| FdtEncode.DtbIsImage | kernel/drivers/fdt/fdt.h:17-29 | the blob written for a tree has a correct header, structure block and strings block |
| Boot.DevicetreeBytes | kernel/drivers/fdt/fdt.h:17-29 | the 128 bytes the writer makes of one tree: header, reservation block, tokens and strings |
| FdtReader.ReadsUnique | kernel/drivers/fdt/fdt.c:26-42 | a pointer tree in memory spells out at most one tree |
| FdtRoundTrip.CompleteIff | kernel/drivers/fdt/fdt.c:185-239 | the root is closed again exactly when the unswapped bound passes the offset of its END_NODE; an encoded tree never makes the parser use a NULL node, and one that fits the heap never exhausts it |
| FdtCut.ParseLeaves | kernel/drivers/fdt/fdt.c:175-240 | wherever the loop bound falls, the parse of an encoded tree leaves exactly the image of the part that the tokens below the bound give, and panics exactly when that does not fit the heap |
| FdtCut.CutTokens | kernel/drivers/fdt/fdt.c:185 | that part is the tree written with those tokens and an END_NODE for each node left open |
| FdtCut.ReadBackLeft | kernel/drivers/fdt/fdt.c:185-305 | for every bound, what a reader of the pointer tree finds and what memory size is reported |
| FdtCut.AllLeft | kernel/drivers/fdt/fdt.c:185 | a bound past the last token leaves the whole tree |
| FdtReader.SwappedBound | kernel/drivers/fdt/fdt.c:185 | the unswapped size is at least the real one exactly when its bytes read backwards are not smaller |
| FdtEncode.LongPropertyCutShort | kernel/drivers/fdt/fdt.c:185 | a blob with a correct header whose parse stops after 256 of 65536 bytes, without a panic and with the root open |
| FdtChain.ParentChain | kernel/drivers/fdt/fdt.c:190-219 | after any well-nested actions the parent chain is the list of open nodes, innermost first, at strictly falling addresses, ending in NULL |
| FdtChain.ChainOfBytes | kernel/drivers/fdt/fdt.c:175-240 | the same for the parse of the encoded bytes, stopped by any loop bound |
| FdtStream.Resync | kernel/drivers/fdt/fdt.c:80-83 | for every name length, the next token acted on is where the NUL-inclusive padding of the specification puts it |
| FdtFormat.EncodedBytes | kernel/drivers/fdt/fdt.c:12-17 | the bytes of every token: its number, its operands, and zeroes up to a multiple of four, at least one after a name |
| FdtParser.DecodeKinds | kernel/drivers/fdt/fdt.c:185-239 | the words 1, 2, 3 and 9 are acted on, all others are passed over |
| FdtParser.DecodeRunsOut | kernel/drivers/fdt/fdt.c:185-223 | a token is outside the blob exactly when its word, the NUL of its name or its two operands are |
| FdtParser.NodeOpened | kernel/drivers/fdt/fdt.c:190-215 | a nameless node becomes the root and its own first child wherever it stands; a named one hangs under the current node, in its first free slot if any |
| FdtParser.NothingOutside | kernel/drivers/fdt/fdt.c:190-230 | outside any node, properties, END_NODEs and named nodes use a NULL node |
| FdtStream.DecodeEvent | kernel/drivers/fdt/fdt.c:185-239 | each encoded token is decoded to its action with the operands' places in the blob, a zero word being skipped after names of length 4n |
| FdtStream.VisitsAreParsed | kernel/drivers/fdt/fdt.c:185-239 | the offsets listed as visited, with their states, are those the loop goes through: each follows by one iteration, the parse goes on from each as it does from the start, and it ends at the last |
| FdtStream.OffsetsAligned | kernel/drivers/fdt/fdt.c:185-239 | whatever the blob holds, the offsets at which the loop reads tokens are multiples of four, each at least four past the one before |
| FdtStream.ParseIsFold | kernel/drivers/fdt/fdt.c:175-240 | parsing an encoded stream applies the actions of exactly the tokens below the bound, in order |
| FdtBuild.BuildTree | kernel/drivers/fdt/fdt.c:190-230 | one subtree's tokens add one child to the current node, build the subtree's image at the cursor, and change nothing else |
| FdtBuild.BuildProps | kernel/drivers/fdt/fdt.c:141-173 | properties fill the free slots in order, one 24-byte block each, and are dropped after sixteen |
| FdtReader.SizeCounts | kernel/drivers/fdt/fdt.c:153-197 | a tree takes 272 bytes for each node and 24 for each stored property, and keeps eight-byte alignment |
| FdtHeap.ParsePacked | kernel/drivers/fdt/fdt.c:153-197 | whatever the blob holds, nodes and properties are disjoint aligned blocks that add up to the cursor's way |
| FdtReader.MemorySizeOfTree | kernel/drivers/fdt/fdt.c:242-305 | for every tree, the reported size is the first region's size modulo 2^32, zero or a NULL dereference, by what the tree holds; a "reg" shorter than 16 bytes is read past its end, from the place its stored property points to |
| FdtReader.MemorySizeOfBlob | kernel/drivers/fdt/fdt.c:257-305 | the same from the blob's bytes |
| FdtEncode.NullFollowed | kernel/drivers/fdt/fdt.c:242-305 | blobs without a memory node, or without its "reg", on which the lookup follows a NULL pointer |
| FdtReader.FindChildMeans | kernel/drivers/fdt/fdt.c:242-255 | in any memory the lookup passes the slots whose names differ and ends at the first other one, which it returns or crashes on |
| FdtReader.NoSizeIff | kernel/drivers/fdt/fdt.c:281-305 | there is no size exactly without a root, when a lookup crashes, or when the word read lies outside the blob |
| FdtReader.FindChildFirst | kernel/drivers/fdt/fdt.c:242-255 | the lookup finds the first child of that name, and meets an empty slot exactly when there is none and a slot is free |
| Words.StrLenMeans | kernel/kstdlib/string.c:38-48 | the length found is that of the string there, and without one there is no NUL at all |
| Words.StrCmpMeans | kernel/kstdlib/string.c:50-64 | strcmp is the difference at the first bytes that differ or end the first string |
| Words.StrCmpZero | kernel/kstdlib/string.c:50-64 | strcmp is zero exactly for equal strings |
| Words.SwapOfLoad | kernel/drivers/fdt/fdt.c:92-101 | a little-endian load followed by the byte swap reads a big-endian word |
| KernelString.Length | kernel/kstdlib/string.c:38-48 | strlen as the search for the first NUL |
| KernelString.Compare | kernel/kstdlib/string.c:50-64 | strcmp's loop returns the difference at the first differing or NUL position |
| KernelString.Copy | kernel/kstdlib/string.c:12-24 | memcpy copies the n bytes and nothing past them |
| FdtDriver.Driver.InsertChild | kernel/drivers/fdt/fdt.c:112-130 | the child goes to the first free slot, if any, and no other node changes |
| FdtDriver.Driver.InsertProperty | kernel/drivers/fdt/fdt.c:141-173 | a property is allocated and linked in the first free slot, if any |
| FdtDriver.Driver.ParseTree | kernel/drivers/fdt/fdt.c:175-240 | the loop leaves the state, or the failure, that the parse function gives |
| FdtDriver.Driver.Init | kernel/drivers/fdt/fdt.c:257-274 | a blob without the magic number is refused and nothing changes |
| FdtDriver.Driver.FindNodeByName | kernel/drivers/fdt/fdt.c:242-255 | the loop computes the lookup function |
| FdtDriver.Driver.GetMemorySize | kernel/drivers/fdt/fdt.c:281-305 | the loop computes the memory size function |
| EternalHeap.RunDisjointIff | kernel/mm/kalloc.c:18-45 | over every run, blocks lie in order, apart and inside the heap exactly when no address sum wraps |
| EternalHeap.BumpIff | kernel/mm/kalloc.c:18-37 | for every size an allocation succeeds exactly when the sum, less 2^64 if it reaches that, is below the limit, and moves the cursor there |
| EternalHeap.HugeSizeOverlaps | kernel/mm/kalloc.c:23-29 | a size near 2^64 passes the test and moves the cursor back |
| EternalHeap.RealignResidue | kernel/mm/kalloc.c:39-45 | the address passed on has twice the old residue, so it is aligned exactly when the old one was, or was half way |
| EternalHeap.RealignMisses | kernel/mm/kalloc.c:39-45 | an address that is passed on unaligned |
| EternalHeap.Heap.EternalAlloc | kernel/mm/kalloc.c:18-37 | hands out the cursor and moves it, or panics and leaves it |
| EternalHeap.Heap.EternalAllocAligned | kernel/mm/kalloc.c:39-45 | the same from the realigned cursor |
| PageBitmap.SetBitSets | kernel/mm/phys/kpalloc.c:59-75 | setting a bit sets that bit and no other |
| PageBitmap.UnsetBitClears | kernel/mm/phys/kpalloc.c:64-75 | clearing a bit clears that bit and no other |
| PageBitmap.MaskIsShift | kernel/mm/phys/kpalloc.c:59-75 | the mask is one shifted by the bit's position in its word |
| PageBitmap.ScanIsFirstFit | kernel/mm/phys/kpalloc.c:92-126 | the word-skipping, trailing-zero scan finds the least clear bit of the bitmap, or nothing exactly when all are set |
| PageBitmap.LiteralIff | kernel/mm/phys/kpalloc.c:87-129 | the page returned is always the first fit; the bitmap is right exactly when the first entry with room is entry 0 or has a bit set |
| PageRuns.RunOwned | kernel/mm/phys/kpalloc.c:77-162 | over every run the set bits are the held and the reserved pages, the two are disjoint, and no page handed out is in either |
| PageRuns.RunOwnedIff | kernel/mm/phys/kpalloc.c:103-113 | as written, that holds throughout exactly when every allocation is sound |
| PageRuns.SamePageTwice | kernel/mm/phys/kpalloc.c:77-129 | from a fresh allocator of 128 pages, 64 reserved, two allocations return the same page |
| PageRuns.RunBalanced | kernel/mm/phys/kpalloc.c:77-162 | over every run free_pages is clear bits, plus bits set by reservations, plus the untracked tail |
| PageRuns.RunBalancedIff | kernel/mm/phys/kpalloc.c:103-113 | as written, under the same condition as ownership |
| PageRuns.InitialOwned | kernel/mm/phys/kpalloc.c:77-85 | initialisation on zeroed memory starts with every page free, owned and balanced, with 4096-byte pages, 64 to an entry, the tail being the page count modulo 64 |
| PageRuns.ReleaseUndoesAllocate | kernel/mm/phys/kpalloc.c:131-146 | freeing the page just allocated restores bitmap, count and ownership |
| PageRuns.DrainsInOrder | kernel/mm/phys/kpalloc.c:87-129 | n allocations return exactly the n clear pages in order, and the next returns NULL |
| PageRuns.ClearsMeaning | kernel/mm/phys/kpalloc.c:87-129 | that list is strictly increasing and is the set of clear bits |
| PageRuns.DrainsInOrderIff | kernel/mm/phys/kpalloc.c:103-113 | as written, exactly when no entry past the first starts out empty |
| PageRuns.ReserveSets | kernel/mm/phys/kpalloc.c:148-162 | a reservation sets exactly its bits |
| PageAllocator.DrainedAddresses | kernel/mm/phys/kpalloc.c:44-52 | the pointers a drain returns go up strictly and convert back to their bits; they pass the alignment test of a free exactly when the base is page aligned |
| PageAllocator.BitOfAddress | kernel/mm/phys/kpalloc.c:44-47 | the bit of an address is that of the 4096-byte page it falls in, counted from the base |
| PageAllocator.AddressOfBit | kernel/mm/phys/kpalloc.c:49-52 | the address of bit i is 4096 i bytes past the base |
| PageAllocator.CoversIff | kernel/mm/phys/kpalloc.c:148-162 | a reservation covers a region exactly when in-page offset plus length fits the whole pages |
| PageAllocator.ReservedIff | kernel/mm/phys/kpalloc.c:44-162 | on the bits: those of all bytes of the region are reserved exactly under that condition |
| PageAllocator.CoversExactIff | kernel/mm/phys/kpalloc.c:148-162 | reserved by its own length, a region is covered exactly when it starts and ends on page bounds |
| PageAllocator.BlobCoveredIff | kernel/arch/rv64/init.c:47-48 | the devicetree is covered exactly when its in-page offset plus size is at most the rounded size |
| PageAllocator.TailsUncovered | kernel/arch/rv64/init.c:47-55 | regions and blobs whose last bytes are not covered |
| PageAllocator.Allocator.Init | kernel/mm/phys/kpalloc.c:77-85 | base, page count and a zeroed bitmap taken from the eternal heap |
| PageAllocator.Allocator.AllocPage | kernel/mm/phys/kpalloc.c:87-129 | the loop returns the first-fit page and leaves the bitmap and count the code leaves |
| PageAllocator.Allocator.FreePage | kernel/mm/phys/kpalloc.c:131-146 | panics exactly on misaligned addresses, clears the page's bit when it lies in the bitmap, and would write past it otherwise |
| PageAllocator.Allocator.MarkRegionUnusable | kernel/mm/phys/kpalloc.c:148-162 | sets exactly the bits of the pages that lie in the region's whole pages, from the page it starts in, and tells when they run out of the bitmap |
| Spinlock.ExcludesIff | kernel/lock/spinlock.c:15-46 | over every interleaving of a set of CPUs: at most one holder, and the flag says whether there is one, exactly when no CPU is numbered -1 or no other is in the set |
| Spinlock.StopsStrangersIff | kernel/lock/spinlock.c:33-46 | over every interleaving: a stranger's Release panics and leaves the flag, and only holders get past the check, exactly when no CPU is numbered -1 |
| Spinlock.TwoHolders | kernel/lock/spinlock.c:23-46 | the CPU numbered -1 and any other come to hold the lock together, for either order of the writes in Release |
| Spinlock.RunKeepsInv | kernel/lock/spinlock.c:23-46 | every interleaving keeps the invariant, for either order of the two writes in Release |
| Spinlock.RightfulPanicIff | kernel/lock/spinlock.c:33-46 | a holder's Release panics exactly when the owner reset of a CPU that owned the lock before it has landed since its own owner write |
| Spinlock.LateResetBy | kernel/lock/spinlock.c:44-45 | which step of the run that reset is, and whose |
| Spinlock.LateResetterIsEarlier | kernel/lock/spinlock.c:44-45 | a CPU whose owner reset is still to come while another holds the lock cleared the flag before that one won it |
| Spinlock.ResetFirstNeverPanics | kernel/lock/spinlock.c:44-45 | with the reset before the flag clear, no holder's Release panics in any interleaving |
| Spinlock.RightfulPanicHappens | kernel/lock/spinlock.c:33-46 | two CPUs suffice for a holder's Release to panic |
| Spinlock.Lock.TryFlag | kernel/lock/spinlock.c:25-27 | one turn of the spin loop is the atomic step of the machine |
| Spinlock.Lock.CheckCaller | kernel/lock/spinlock.c:36-42 | only a holder gets past the owner check |
| Spinlock.Lock.DropFlag | kernel/lock/spinlock.c:44 | after the clear nobody holds the lock |
| Sv39.WalkAgreesIff | hal/rv64/sv39_vm.c:68-107 | the walk and the architecture's translation agree exactly when nothing is mapped, or the address is canonical and the entries on the way are well formed |
| Sv39.SameEntryForRegion | hal/rv64/sv39_vm.c:76-107 | a walk that stops at level L gives the same answer for all addresses with the same bits 38 to 12+9L |
| Sv39.WalkPageTable | hal/rv64/sv39_vm.c:76-107 | the loop computes the walk |
| Sv39.FlagOnly | hal/rv64/sv39_vm.c:38-56 | marking sets the bit of that flag, 0 to 3, and no other bit |
| Sv39.LeafMeans | hal/rv64/sv39_vm.c:63-74 | the tests look at bit 0 and at bits 1 to 3 |
| Sv39.Machine.MarkPte | hal/rv64/sv39_vm.c:38-56 | the same, in place |
| Sv39.ReadOverWrite | kernel/boot/rv64/start.s:115-130 | every address with the mapped index is found in the new entry, whose low ten bits are V, R, W and X; it translates to the gigabyte mapped plus its low 30 bits, and is well formed, exactly when the physical address has 56 bits |
| Sv39.WalkUnchangedIff | kernel/boot/rv64/start.s:115-130 | a mapping leaves a walk as it was exactly when the walk does not read the entry mapped, or that was a leaf before |
| Sv39.OtherWalksUnchanged | kernel/boot/rv64/start.s:115-130 | all walks of other indices are unchanged when no entry on their way points back to the root |
| Sv39.BootKeepsOthers | kernel/boot/rv64/start.s:54-65 | so they are by the two boot mappings together |
| Sv39.BootMappingsHold | kernel/boot/rv64/start.s:54-65 | after boot both mappings hold together, identity and high, through entries that are readable, writable and executable, whatever the root table held |
| Sv39.Machine.BootMapVirtToPhys | kernel/boot/rv64/start.s:115-130 | register by register, the store the mapping function describes |
| Sv39.Machine.BootMap | kernel/boot/rv64/start.s:54-65 | the two mapping calls |
| Numbers.HexRoundTrip | kernel/kstdlib/stdio.c:61-125 | the characters are hex digits that read in base 16 are the number, as many as the larger of width and fewest digits, with no leading zero unless padded or 0 |
| Numbers.HexPadded | kernel/kstdlib/stdio.c:61-125 | the loops write that text and return its length |
| Numbers.DecimalBackwards | kernel/kstdlib/stdio.c:45-59 | the digits, read least significant first, are the number |
| Numbers.DecimalLength | kernel/kstdlib/stdio.c:45-59 | there are no more of them than the number needs, and one for 0 |
| Numbers.SignedDigits | kernel/kstdlib/stdio.c:21-43 | both for %d and every number that is not negative |
| Numbers.DecimalReadsIff | kernel/kstdlib/stdio.c:45-59 | read the usual way, what is printed is the number exactly when its digits are a palindrome |
| Numbers.DecimalSamples | kernel/kstdlib/stdio.c:21-59 | 12 prints as 21 and every negative number as -0 |
| Numbers.ULong | kernel/kstdlib/stdio.c:45-59 | the loop writes that text and returns its length |
| Numbers.Number | kernel/kstdlib/stdio.c:21-43 | a sign and a zero for negative numbers, the sign not being counted |
| Printf.PrintsPieces | kernel/kstdlib/stdio.c:127-256 | for every well-formed format and matching arguments the interpreter stops at the NUL, takes arguments left to right, and writes the rendering of the grammar |
| Printf.StopsAtNulIff | kernel/kstdlib/stdio.c:165-253 | a run that ends stops at the first NUL exactly when no directive is cut short by it |
| Printf.PiecesComplete | kernel/kstdlib/stdio.c:165-253 | formats of the grammar cut no directive short |
| Printf.DanglingPercent | kernel/kstdlib/stdio.c:169-241 | a format that ends in a percent sign prints what lies behind its NUL |
| Printf.WidthParsed | kernel/kstdlib/stdio.c:127-145 | a zero and digits are read as the width they spell |
| Printf.WidthIsDecimal | kernel/kstdlib/stdio.c:127-145 | that is the number its digits spell in base 10 |
| Printf.PrintString | kernel/kstdlib/stdio.c:147-158 | writes the characters up to the NUL and counts them |
| Printf.PrintfInternal | kernel/kstdlib/stdio.c:160-256 | the return value is the number of characters written |
| Boot.ArchInit | kernel/arch/rv64/init.c:26-55 | the calls in order leave the state, or the failure, that the bring-up function gives |
| Boot.BootPages | kernel/arch/rv64/init.c:37-55 | after every successful boot the set bits are exactly the two reserved regions, and every later run starts owned and balanced, the tail being the page count modulo 64 |
| Boot.BootReserves | kernel/arch/rv64/init.c:47-55 | in addresses: a page is marked exactly when it lies in the whole pages of the devicetree, its size rounded up, or of the kernel from its physical start; every other page is free |
| Boot.BootHeap | kernel/arch/rv64/init.c:26-38 | from an empty heap, whatever the blob holds, nodes, properties and bitmap are disjoint and aligned |
| Boot.BootOnTree | kernel/arch/rv64/init.c:26-55 | from the bytes of an encoded tree, for every loop bound, boot succeeds exactly when a size is reported, the bitmap fits the heap and both regions lie in it; the bitmap is sized from the first memory region, and what was parsed of the tree stays readable below it |
| Boot.BeforeParse | kernel/arch/rv64/init.c:26-31 | without the magic number the devicetree is invalid, and a failed parse stops the boot |
| Boot.BootGetsUp | kernel/arch/rv64/init.c:26-55 | from a devicetree given byte by byte, a machine with 128 MiB boots from any empty heap with room; the page of the devicetree and the 256 of the kernel are marked, and no other |

## Left out

- Weak-memory effects and the data race on the lock's owner field: the spinlock is an interleaving of single accesses. The spin loop appears as any number of failing test-and-set steps, so no claim is made that a waiting CPU ever gets the lock.
- Interrupt handlers that call lock functions inside lock functions on the same CPU.
- Permission checks, accessed and dirty updates, and the TLB in translation; the architecture's side covers steps 1 to 4, misaligned superpages and the translated address.
- WalkPageTable: a table outside the modelled memory is its own answer, where the code would dereference the address.
- RealignResidue: the mask with alignment minus one is written as a residue, which is the same for the powers of two the interface allows.
- RoundTrip: property names are looked up through any strings table whose offsets hold the right strings; the blob is at most 2^32 bytes, as its 32-bit size says; the heap ends at least 272 bytes below 2^64, as the linker places it.
- PrintfInternal: the character count and the pad width are unbounded; a C int overflow is undefined and not modelled. The two hex printers, which differ in the number's width only, are one method.
- A page freed, or a region reserved, outside the bitmap: the methods report it and the model ends there, where the code would write past the bitmap.
- Held pages covered by a later reservation are counted as held, since the bitmap cannot tell the difference.
- SBI calls, interrupts, trap vectors, fences and CSR writes; the register dump of a panic; exception decoding; kmain and the test dereference at the end of initialisation.
- memset and strncpy, which are single loops none of the modelled code calls.
- Members that would only restate a field access, such as the total size and the PTE tests.
