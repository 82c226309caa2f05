// Bringing the system up: devicetree, memory size, page bitmap, reservations
// (kernel/arch/rv64/init.c, lines 26 to 55).
module Boot {
  import opened Words
  import opened FdtFormat
  import opened FdtParser
  import opened FdtBuild
  import opened FdtReader
  import opened FdtRoundTrip
  import opened FdtCut
  import opened FdtEncode
  import opened FdtHeap
  import opened PageBitmap
  import opened PageRuns
  import opened PageAllocator
  import EternalHeap
  import FdtDriver

  const KERNEL_REGION_BASE: nat := 0xFFFF_FFFF_0000_0000

  // What the linker and the firmware hand over.
  datatype Machine = Machine(physBase: nat, fdtPtr: nat, kernelStart: nat, kernelEnd: nat)

  predicate WordSized(m: Machine) {
    m.physBase < WORD64 && m.fdtPtr < WORD64 && m.kernelStart <= m.kernelEnd < WORD64
  }

  // Invalid: no devicetree. Stopped: a panic or a NULL pointer on the way. Stray: a region to
  // reserve lies outside the bitmap, and the code would write there all the same.
  datatype Result = Up(store: Store, pages: Pages, bitmapAt: nat, cursor: nat) | Invalid | Stopped | Stray

  function TotalSize(blob: Blob): (r: nat)
    requires HasHeader(blob)
  {
    Read32(blob, 4)
  }

  function FdtRegion(blob: Blob, m: Machine): (r: Op)
    requires HasHeader(blob)
  {
    Reserve(AddressToBitIndex(m.physBase, m.fdtPtr), RoundToPage(TotalSize(blob)) / PAGE)
  }

  function KernelRegion(m: Machine): (r: Op)
    requires WordSized(m)
  {
    Reserve(AddressToBitIndex(m.physBase, Wrap64(m.kernelStart - KERNEL_REGION_BASE)),
            (m.kernelEnd - m.kernelStart) / PAGE)
  }

  function BitmapSize(memorySize: nat): (r: nat) {
    memorySize / PAGE / BITS * 8
  }

  function BringUp(blob: Blob, limit: nat, s: Store, m: Machine): (r: Result)
    requires HasHeader(blob) && WordSized(m)
  {
    if Read32(blob, 0) != MAGIC then Invalid
    else
      match ParseBlob(blob, limit, s)
      case Panic => Stopped
      case Fault => Stopped
      case Ok(store) =>
        match MemorySize(blob, store)
        case None => Stopped
        case Some(memorySize) =>
          match EternalHeap.Bump(store.cursor, limit, BitmapSize(memorySize))
          case None => Stopped
          case Some(cursor) =>
            var p0 := Initial(memorySize);
            if !Legal(FdtRegion(blob, m), p0) then Stray
            else
              var p1 := Next(FdtRegion(blob, m), p0, AsWritten);
              if !Legal(KernelRegion(m), p1) then Stray
              else Up(store, Next(KernelRegion(m), p1, AsWritten), store.cursor, cursor)
  }

  // The lookups read the tree only.
  lemma {:induction false} SameChild(blob: Blob, s: Store, s': Store, slots: seq<nat>, name: seq<Byte>)
    requires s'.nodes == s.nodes
    ensures FindChild(blob, s', slots, name) == FindChild(blob, s, slots, name)
    decreases |slots|
  {
    hide StrCmp;
    if slots != [] { SameChild(blob, s, s', slots[1..], name); }
  }

  lemma {:induction false} SameProperty(blob: Blob, s: Store, s': Store, slots: seq<nat>, name: seq<Byte>)
    requires s'.properties == s.properties
    ensures FindProperty(blob, s', slots, name) == FindProperty(blob, s, slots, name)
    decreases |slots|
  {
    hide StrCmp;
    if slots != [] { SameProperty(blob, s, s', slots[1..], name); }
  }

  lemma SameMemorySize(blob: Blob, s: Store, s': Store)
    requires s'.nodes == s.nodes && s'.properties == s.properties && s'.root == s.root
    ensures MemorySize(blob, s') == MemorySize(blob, s)
    ensures MemorySize(blob, s).Some? ==> MemorySize(blob, s).value < WORD32
  {
    hide FindChild, FindProperty, Read32;
    if s.root in s.nodes {
      SameChild(blob, s, s', s.nodes[s.root].children, MEMORY_NAME);
      var f := FindChild(blob, s, s.nodes[s.root].children, MEMORY_NAME);
      if f.Found? { SameProperty(blob, s, s', s.nodes[f.address].properties, REG_NAME); }
    }
  }

  datatype BootStatus = Success | TreeInvalid | Halted | WildWrite

  predicate SameResult(status: BootStatus, r: Result) {
    match r
    case Up(_, _, _, _) => status.Success?
    case Invalid => status.TreeInvalid?
    case Stopped => status.Halted?
    case Stray => status.WildWrite?
  }

  // srv_arch_Init
  method ArchInit(
      driver: FdtDriver.Driver, heap: EternalHeap.Heap, allocator: Allocator, m: Machine)
    returns (status: BootStatus)
    requires driver.heap == heap && driver.Valid() && HasHeader(driver.blob) && WordSized(m)
    modifies driver, heap, allocator
    ensures var e := BringUp(driver.blob, heap.limit, old(driver.Store(0)), m);
            && SameResult(status, e)
            && (e.Up? ==>
                  && driver.Store(e.store.current) == e.store.(cursor := e.cursor)
                  && allocator.pageBitmap[..] == e.pages.bm && allocator.freePages == e.pages.free
                  && allocator.physBase == m.physBase && allocator.bitmapAddress == e.bitmapAt)
  {
    hide ParseBlob, MemorySize, Initial, ReserveBits, RoundToPage, AddressToBitIndex, Read32;
    ghost var s0 := driver.Store(0);
    var parsed, ok := driver.Init();
    if !parsed.Done? {
      return Halted;
    }
    if !ok {
      return TreeInvalid;
    }
    ghost var store := ParseBlob(driver.blob, heap.limit, s0).store;
    SameMemorySize(driver.blob, store, driver.Store(0));
    var size := driver.GetMemorySize();
    if size.None? {
      return Halted;
    }
    var up := allocator.Init(m.physBase, size.value, heap);
    if !up {
      return Halted;
    }
    ghost var p0 := Initial(size.value);
    var inside := allocator.MarkRegionUnusable(m.fdtPtr, RoundToPage(TotalSize(driver.blob)));
    if !inside {
      return WildWrite;
    }
    ghost var p1 := Next(FdtRegion(driver.blob, m), p0, AsWritten);
    inside := allocator.MarkRegionUnusable(Wrap64(m.kernelStart - KERNEL_REGION_BASE), m.kernelEnd - m.kernelStart);
    if !inside {
      return WildWrite;
    }
    status := Success;
  }

  // ---- What boot establishes ----

  function BothRegions(first: Op, second: Op): (r: set<nat>)
    requires first.Reserve? && second.Reserve?
  {
    Region(first.first, first.pages) + Region(second.first, second.pages)
  }

  // After every successful boot the set bits are exactly the two reserved regions, nothing is
  // held, and free_pages balances, the tail being the page count modulo 64; so every later run of
  // the allocator starts owned.
  lemma BootPages(blob: Blob, limit: nat, s: Store, m: Machine)
    requires HasHeader(blob) && WordSized(m) && BringUp(blob, limit, s, m).Up?
    ensures var p := BringUp(blob, limit, s, m).pages;
            && Owned(p) && p.held == {} && p.reserved == BothRegions(FdtRegion(blob, m), KernelRegion(m))
            && Balanced(p, MemorySize(blob, ParseBlob(blob, limit, s).store).value / PAGE % BITS)
  {
    hide ParseBlob, MemorySize, Initial, ReserveBits, Region, RoundToPage, AddressToBitIndex, Read32, Owned, Balanced;
    var store := ParseBlob(blob, limit, s).store;
    SameMemorySize(blob, store, store);
    var memorySize := MemorySize(blob, store).value;
    var p0 := Initial(memorySize);
    var tail := memorySize / PAGE % BITS;
    InitialOwned(memorySize);
    NothingHeld(memorySize);
    ReserveStep(FdtRegion(blob, m), p0, tail);
    ReserveStep(KernelRegion(m), Next(FdtRegion(blob, m), p0, AsWritten), tail);
  }

  // The same in addresses: after every successful boot the bit of the page 4096 * i bytes past the
  // base is set exactly when that lies in the whole pages of the devicetree, its size rounded up to
  // pages, or of the kernel, from the physical address of its start; all others are free.
  lemma BootReserves(blob: Blob, limit: nat, s: Store, m: Machine, rounded: nat, i: nat)
    requires HasHeader(blob) && WordSized(m) && BringUp(blob, limit, s, m).Up?
    requires rounded % 4096 == 0 && Read32(blob, 4) <= rounded < Read32(blob, 4) + 4096
    requires i < 64 * |BringUp(blob, limit, s, m).pages.bm|
    ensures IsSet(BringUp(blob, limit, s, m).pages.bm, i) <==>
            || InWholePages(4096 * i, (m.fdtPtr - m.physBase) % 0x1_0000_0000_0000_0000, rounded)
            || InWholePages(4096 * i, (m.kernelStart - 0xFFFF_FFFF_0000_0000 - m.physBase) % 0x1_0000_0000_0000_0000,
                            m.kernelEnd - m.kernelStart)
  {
    hide ParseBlob, MemorySize, Initial, ReserveBits, RoundToPage, AddressToBitIndex, Read32, Owned, Balanced;
    hide BringUp, IsSet, InWholePages, Wrap64, Region, FdtRegion, KernelRegion;
    BootPages(blob, limit, s, m);
    var p := BringUp(blob, limit, s, m).pages;
    OwnedBit(p, i);
    FdtPages(blob, m, rounded, i);
    KernelPages(m, i);
  }

  lemma OwnedBit(p: Pages, i: nat)
    requires Owned(p) && p.held == {} && i < BITS * |p.bm|
    ensures IsSet(p.bm, i) <==> i in p.reserved
  {
    hide IsSet;
    assert i in All(p.bm);
  }

  lemma FdtPages(blob: Blob, m: Machine, rounded: nat, i: nat)
    requires HasHeader(blob) && rounded % 4096 == 0 && Read32(blob, 4) <= rounded < Read32(blob, 4) + 4096
    ensures FdtRegion(blob, m).Reserve?
    ensures i in Region(FdtRegion(blob, m).first, FdtRegion(blob, m).pages) <==>
            InWholePages(4096 * i, (m.fdtPtr - m.physBase) % 0x1_0000_0000_0000_0000, rounded)
  {
    hide AddressToBitIndex, InWholePages, Read32;
    var size := TotalSize(blob);
    assert Wrap64(size + PAGE - 1) == size + PAGE - 1;
    assert RoundToPage(size) == rounded;
    WholePages(m.physBase, m.fdtPtr, rounded, i);
  }

  lemma KernelPages(m: Machine, i: nat)
    requires WordSized(m)
    ensures KernelRegion(m).Reserve?
    ensures i in Region(KernelRegion(m).first, KernelRegion(m).pages) <==>
            InWholePages(4096 * i, (m.kernelStart - 0xFFFF_FFFF_0000_0000 - m.physBase) % 0x1_0000_0000_0000_0000,
                         m.kernelEnd - m.kernelStart)
  {
    hide AddressToBitIndex, InWholePages, Wrap64;
    var start := m.kernelStart - KERNEL_REGION_BASE;
    WholePages(m.physBase, Wrap64(start), m.kernelEnd - m.kernelStart, i);
    WrapIsResidue(start);
    ResidueOfDifference(start, m.physBase);
  }

  lemma ResidueOfDifference(a: int, b: int)
    ensures (a % 0x1_0000_0000_0000_0000 - b) % 0x1_0000_0000_0000_0000 == (a - b) % 0x1_0000_0000_0000_0000
  {
  }

  lemma NothingHeld(memorySize: nat)
    ensures Initial(memorySize).held == {} && Initial(memorySize).reserved == {}
  {
  }

  lemma ReserveStep(op: Op, p: Pages, tail: nat)
    requires op.Reserve? && Legal(op, p) && Owned(p) && Balanced(p, tail) && p.held == {}
    ensures var p' := Next(op, p, AsWritten);
            Owned(p') && Balanced(p', tail) && p'.held == {} && p'.reserved == p.reserved + Region(op.first, op.pages)
  {
    hide Owned, Balanced, ReserveBits, Region;
    assert Next(op, p, AsWritten) == Next(op, p, Intended);
    StepOwned(op, p);
    StepBalanced(op, p, tail);
  }

  // Nodes, properties and the page bitmap are apart, whatever the blob holds: from an empty heap,
  // the bitmap starts where the last of them ends, and takes at most 131064 bytes.
  lemma BootHeap(blob: Blob, limit: nat, cursor: nat, m: Machine)
    requires HasHeader(blob) && WordSized(m) && 0 < cursor < limit <= 0xFFFF_FFFF_FFF0_0000 && cursor % 8 == 0
    requires BringUp(blob, limit, EmptyStore(cursor), m).Up?
    ensures var r := BringUp(blob, limit, EmptyStore(cursor), m);
            && Packed(r.store, cursor) && r.bitmapAt == r.store.cursor && r.bitmapAt % 8 == 0
            && r.cursor == r.bitmapAt + 8 * |r.pages.bm| < limit && 8 * |r.pages.bm| <= 131064
  {
    hide ParseBlob, MemorySize, Initial, Region, RoundToPage, AddressToBitIndex, Read32, Load32, Packed;
    var s := EmptyStore(cursor);
    var store := ParseBlob(blob, limit, s).store;
    EmptyPacked(cursor);
    PackedParse(blob, limit, s);
    SameMemorySize(blob, store, store);
    var memorySize := MemorySize(blob, store).value;
    BitmapBytes(memorySize);
    BitmapFits(store, cursor, limit, memorySize);
  }

  // Nothing allocated yet.
  function EmptyStore(cursor: nat): (s: Store) {
    Store(cursor, map[], map[], 0, 0)
  }

  lemma PackedParse(blob: Blob, limit: nat, s: Store)
    requires HasHeader(blob) && Wf(s.(current := 0), limit) && Packed(s.(current := 0), s.cursor)
    requires ParseBlob(blob, limit, s).Ok?
    ensures var r := ParseBlob(blob, limit, s).store; Packed(r, s.cursor) && Wf(r, limit)
  {
    hide Wf, Packed, Parse;
    ParsePacked(blob, StructAt(blob), StringsAt(blob), LoopBound(blob), limit, 0, s.(current := 0), s.cursor);
  }

  lemma BitmapFits(s: Store, start: nat, limit: nat, memorySize: nat)
    requires Packed(s, start) && Wf(s, limit) && BitmapSize(memorySize) <= 131064 && limit <= 0xFFFF_FFFF_FFF0_0000
    ensures s.cursor % 8 == 0
    ensures EternalHeap.Bump(s.cursor, limit, BitmapSize(memorySize)).Some? ==>
              EternalHeap.Bump(s.cursor, limit, BitmapSize(memorySize)).value ==
              s.cursor + BitmapSize(memorySize) < limit
  {
  }

  // Once the tree is parsed, boot stops exactly when no size is reported or the bitmap for it does not
  // fit the heap, and succeeds exactly when neither is so and both regions lie inside the bitmap.
  lemma AfterParse(blob: Blob, limit: nat, s: Store, m: Machine, store: Store)
    requires HasHeader(blob) && WordSized(m) && Read32(blob, 0) == MAGIC && ParseBlob(blob, limit, s) == Ok(store)
    ensures var r, size := BringUp(blob, limit, s, m), MemorySize(blob, store);
            && (r.Stopped? <==> size.None? || EternalHeap.Bump(store.cursor, limit, BitmapSize(size.value)).None?)
            && (r.Up? <==>
                  && size.Some? && EternalHeap.Bump(store.cursor, limit, BitmapSize(size.value)).Some?
                  && Legal(FdtRegion(blob, m), Initial(size.value)) && Legal(KernelRegion(m), Initial(size.value)))
            && (r.Up? ==> r.store == store && r.bitmapAt == store.cursor && |r.pages.bm| == size.value / PAGE / BITS)
  {
    hide ParseBlob, MemorySize, RoundToPage, AddressToBitIndex, ReserveBits, Region, Read32, Wrap64;
    hide FdtRegion, KernelRegion, BitmapSize;
    assert FdtRegion(blob, m).Reserve? && KernelRegion(m).Reserve? by { BothReserve(blob, m); }
  }

  // Without the magic number there is no devicetree; a parse that fails stops the boot.
  lemma BeforeParse(blob: Blob, limit: nat, s: Store, m: Machine)
    requires HasHeader(blob) && WordSized(m)
    ensures BringUp(blob, limit, s, m).Invalid? <==> Read32(blob, 0) != 0xD00D_FEED
    ensures Read32(blob, 0) == 0xD00D_FEED && !ParseBlob(blob, limit, s).Ok? ==> BringUp(blob, limit, s, m).Stopped?
  {
    hide ParseBlob, MemorySize, RoundToPage, AddressToBitIndex, ReserveBits, Region, Read32, Wrap64;
    hide FdtRegion, KernelRegion, BitmapSize;
    assert FdtRegion(blob, m).Reserve? && KernelRegion(m).Reserve? by { BothReserve(blob, m); }
  }

  lemma BothReserve(blob: Blob, m: Machine)
    requires HasHeader(blob) && WordSized(m)
    ensures FdtRegion(blob, m).Reserve? && KernelRegion(m).Reserve?
  {
  }

  // From the devicetree's bytes to the bitmap. Of an encoded tree the parse leaves what the loop bound
  // lets through, all of it when the bound passes the last token. If that fits the heap, boot stops
  // and succeeds as AfterParse says; then the bitmap follows the tree, which stays readable.
  lemma BootOnTree(blob: Blob, t: Tree, table: Strings, es: seq<Event>, limit: nat, s: Store, m: Machine)
    requires Image(blob, t, table, es) && WordSized(m) && Wf(s, limit) && TokensBelow(es, 0, LoopBound(blob)) > 0
    requires s.cursor + Size(Left(blob, t, es)) < limit
    ensures LoopBound(blob) > LastToken(es, 0) ==> Left(blob, t, es) == t
    ensures var r, parsed := BringUp(blob, limit, s, m), ParseBlob(blob, limit, s);
            var left := Left(blob, t, es);
            && parsed.Ok? && Reports(blob, parsed.store, SizeInTree(Keep(left, SLOTS - 1)))
            && var size := MemorySize(blob, parsed.store);
               && (r.Stopped? <==>
                     size.None? || EternalHeap.Bump(s.cursor + Size(left), limit, BitmapSize(size.value)).None?)
               && (r.Up? <==>
                     && size.Some? && EternalHeap.Bump(s.cursor + Size(left), limit, BitmapSize(size.value)).Some?
                     && Legal(FdtRegion(blob, m), Initial(size.value)) && Legal(KernelRegion(m), Initial(size.value)))
               && (r.Up? ==> ReadsRoot(blob, r.store, Keep(left, SLOTS - 1)) && r.bitmapAt == s.cursor + Size(left)
                             && |r.pages.bm| == size.value / PAGE / BITS)
  {
    hide ParseBlob, MemorySize, SizeInTree, Size, Keep, LoopBound, LastToken, TokensBelow, Left, ReadsRoot, Reports;
    hide BringUp, Legal, FdtRegion, KernelRegion, BitmapSize, Initial, Wf, Read32, Holds, EternalHeap.Bump;
    ReadBackLeft(blob, t, table, es, limit, s);
    ParseLeaves(blob, t, table, es, limit, s);
    if LoopBound(blob) > LastToken(es, 0) { AllLeft(blob, t, table, es); }
    AfterParse(blob, limit, s, m, ParseBlob(blob, limit, s).store);
  }

  // ---- A machine that boots ----

  // One memory region of this many bytes.
  function MemoryTree(size: nat): (t: Tree) {
    Tree([], [], [Tree(MEMORY_NAME, [Prop(REG_NAME, Zeros(12) + Be32(size))], [])])
  }

  lemma MemoryTreeWritable(size: nat)
    ensures var t := MemoryTree(size);
            && Writable(t) && TokenBytes(t) == 64 && Size(t) == 2 * NODE_SIZE + PROP_SIZE
            && |StringsBlock(PropNames(t))| == 4
  {
    hide MEMORY_NAME, REG_NAME, Be32, Zeros;
    var t := MemoryTree(size);
    var node := t.children[0];
    var reg := node.props[0];
    MemoryNameBytes();
    RegNameBytes();
    assert t.children[1..] == [] && node.props[1..] == [];
    assert PropNames(node) == [REG_NAME];
    assert ForestPropNames(t.children) == PropNames(node) + ForestPropNames([]) == [REG_NAME];
    assert PropNames(t) == [REG_NAME];
    assert StringsBlock([REG_NAME]) == StringsBlock([]) + REG_NAME + [0];
    assert |Padded(reg.value)| == 16;
    assert node.children == [] && ForestBytes(node.children) == ForestSize(node.children) == 0;
    assert AttrBytes(node.props) == 28 && |node.props| == 1;
    assert TokenBytes(node) == 8 + |Padded(node.name + [0])| + 28 + 0;
    assert Size(node) == NODE_SIZE + PROP_SIZE * Kept(1) + 0;
    assert InnerWritable(node) && TokenBytes(node) == 52 && Size(node) == NODE_SIZE + PROP_SIZE;
  }

  lemma RegNameBytes()
    ensures |REG_NAME| == 3 && 0 !in REG_NAME
  {
  }

  lemma MemoryTreeSize(size: nat)
    requires size < WORD32
    ensures SizeInTree(Keep(MemoryTree(size), SLOTS - 1)) == Known(Some(size))
  {
    hide MEMORY_NAME, REG_NAME, Be32, Zeros, Read32;
    var t := MemoryTree(size);
    var node := t.children[0];
    KeepIff(t, SLOTS - 1);
    assert FirstTree(t.children, MEMORY_NAME) == 0 && FirstProp(node.props, REG_NAME) == 0;
    var v := node.props[0].value;
    assert v[12..16] == Be32(size);
    Read32OfBe32(v, 12, size);
    SplitResidue(Read32(v, 8), size);
  }

  lemma SplitResidue(high: nat, low: nat)
    requires low < WORD32
    ensures (high * WORD32 + low) % WORD32 == low
  {
  }

  // 128 MiB at 0x8000_0000, the devicetree 16 MiB below their end, a kernel of 1 MiB.
  const MACHINE: Machine := Machine(0x8000_0000, 0x8700_0000, 0xFFFF_FFFF_8020_0000, 0xFFFF_FFFF_8030_0000)

  // Its devicetree, byte by byte: header, reservation block, structure block and strings block.
  const HEADER_BYTES: seq<Byte> :=
    [0xD0, 0x0D, 0xFE, 0xED] + [0, 0, 0, 128] + [0, 0, 0, 56] + [0, 0, 0, 124] + [0, 0, 0, 40] +
    [0, 0, 0, 17] + [0, 0, 0, 16] + [0, 0, 0, 0] + [0, 0, 0, 4] + [0, 0, 0, 68]

  const STRUCT_BYTES: seq<Byte> :=
    [0, 0, 0, 1, 0, 0, 0, 0] +
    ([0, 0, 0, 1] + [0x6D, 0x65, 0x6D, 0x6F, 0x72, 0x79, 0x40, 0x38, 0x30, 0x30, 0x30, 0x30, 0x30, 0x30, 0x30, 0]) +
    ([0, 0, 0, 3] + [0, 0, 0, 16] + [0, 0, 0, 0] + ([0, 0, 0, 0, 0, 0, 0, 0, 0, 0, 0, 0] + [8, 0, 0, 0])) +
    [0, 0, 0, 2] + [0, 0, 0, 2] + [0, 0, 0, 9]

  const DEVICETREE: seq<Byte> :=
    HEADER_BYTES + [0, 0, 0, 0, 0, 0, 0, 0, 0, 0, 0, 0, 0, 0, 0, 0] + STRUCT_BYTES + [0x72, 0x65, 0x67, 0]

  // That is what the writer makes of the tree.
  lemma DevicetreeBytes()
    ensures PlainDtb(MemoryTree(0x800_0000)) == DEVICETREE
  {
    hide PlainEvents, MemoryTree, StringsTable, StructBlock, StringsBlock, PropNames, TokenBytes;
    var t := MemoryTree(0x800_0000);
    MemoryTreeWritable(0x800_0000);
    MemoryStrings();
    MemoryStruct();
    assert |StructBlock(PlainEvents(t))| == 68;
    MemoryHeader();
    assert Zeros(16) == [0, 0, 0, 0, 0, 0, 0, 0, 0, 0, 0, 0, 0, 0, 0, 0];
  }

  lemma MemoryHeader()
    ensures Header(128, 68, 4) == HEADER_BYTES
  {
    hide Be32;
    Be32Is(MAGIC, 0xD0, 0x0D, 0xFE, 0xED);
    Be32Is(128, 0, 0, 0, 128);
    Be32Is(STRUCT_AT, 0, 0, 0, 56);
    Be32Is(STRUCT_AT + 68, 0, 0, 0, 124);
    Be32Is(40, 0, 0, 0, 40);
    Be32Is(17, 0, 0, 0, 17);
    Be32Is(16, 0, 0, 0, 16);
    Be32Is(0, 0, 0, 0, 0);
    Be32Is(4, 0, 0, 0, 4);
    Be32Is(68, 0, 0, 0, 68);
  }

  lemma MemoryStrings()
    ensures PropNames(MemoryTree(0x800_0000)) == [REG_NAME]
    ensures StringsBlock([REG_NAME]) == [0x72, 0x65, 0x67, 0] && StringsTable([REG_NAME]) == map[REG_NAME := 0]
  {
    hide MEMORY_NAME;
    var t := MemoryTree(0x800_0000);
    var node := t.children[0];
    assert t.children[1..] == [] && PropNames(node) == [REG_NAME];
    assert ForestPropNames(t.children) == PropNames(node) + ForestPropNames([]) == [REG_NAME];
    assert [REG_NAME][..0] == [] && StringsBlock([]) == [];
  }

  lemma MemoryEvents()
    ensures PlainEvents(MemoryTree(0x800_0000)) ==
            [Begin([]), Begin(MEMORY_NAME), Attr(0, Zeros(12) + Be32(0x800_0000)), End, End]
  {
    hide Be32, Zeros, StringsTable, PropNames, MEMORY_NAME, REG_NAME;
    var t := MemoryTree(0x800_0000);
    var node := t.children[0];
    MemoryStrings();
    var table := StringsTable(PropNames(t));
    var attr := Attr(0, node.props[0].value);
    assert node.props[1..] == [] && t.children[1..] == [];
    assert Attrs(node.props, table) == [attr];
    assert ForestEvents(node.children, table) == [];
    assert Events(node, table) == [Begin(MEMORY_NAME), attr, End];
    assert ForestEvents(t.children, table) == Events(node, table) + ForestEvents([], table);
    assert Events(t, table) == [Begin([]), Begin(MEMORY_NAME), attr, End, End];
  }

  lemma MemoryStruct()
    ensures StructBlock(PlainEvents(MemoryTree(0x800_0000))) == STRUCT_BYTES
  {
    hide Be32, Zeros, Encoded, EncodedAll, PlainEvents, MemoryTree, MEMORY_NAME;
    MemoryEvents();
    RootToken();
    NodeToken();
    RegToken();
    EndTokens();
    FiveTokens(Begin([]), Begin(MEMORY_NAME), Attr(0, Zeros(12) + Be32(0x800_0000)), End, End);
  }

  lemma FiveTokens(a: Event, b: Event, c: Event, d: Event, e: Event)
    ensures EncodedAll([a, b, c, d, e]) == Encoded(a) + Encoded(b) + Encoded(c) + Encoded(d) + Encoded(e)
  {
    hide Encoded;
    assert [a, b, c, d, e][1..] == [b, c, d, e] && [b, c, d, e][1..] == [c, d, e] && [c, d, e][1..] == [d, e];
    assert [d, e][1..] == [e] && [e][1..] == [];
    assert EncodedAll([e]) == Encoded(e) + EncodedAll([]) == Encoded(e);
    assert EncodedAll([d, e]) == Encoded(d) + Encoded(e);
    assert EncodedAll([c, d, e]) == Encoded(c) + Encoded(d) + Encoded(e);
    assert EncodedAll([b, c, d, e]) == Encoded(b) + Encoded(c) + Encoded(d) + Encoded(e);
  }

  lemma RootToken()
    ensures Encoded(Begin([])) == [0, 0, 0, 1, 0, 0, 0, 0]
  {
    hide Be32;
    Be32Is(BEGIN_NODE, 0, 0, 0, 1);
    assert [] + [0] == [0] && Gap(1) == 3;
    assert Zeros(3) == [0, 0, 0];
  }

  lemma NodeToken()
    ensures Encoded(Begin(MEMORY_NAME)) ==
            [0, 0, 0, 1] + [0x6D, 0x65, 0x6D, 0x6F, 0x72, 0x79, 0x40, 0x38, 0x30, 0x30, 0x30, 0x30, 0x30, 0x30, 0x30, 0]
  {
    hide Be32, Padded, MEMORY_NAME;
    Be32Is(BEGIN_NODE, 0, 0, 0, 1);
    MemoryNamePadded();
  }

  lemma MemoryNamePadded()
    ensures Padded(MEMORY_NAME + [0]) ==
            [0x6D, 0x65, 0x6D, 0x6F, 0x72, 0x79, 0x40, 0x38, 0x30, 0x30, 0x30, 0x30, 0x30, 0x30, 0x30, 0]
  {
    hide Gap;
    GapReachesBoundary(16);
    assert Zeros(0) == [];
    assert Padded(MEMORY_NAME + [0]) == MEMORY_NAME + [0];
  }

  lemma RegToken()
    ensures Encoded(Attr(0, Zeros(12) + Be32(0x800_0000))) ==
            [0, 0, 0, 3] + [0, 0, 0, 16] + [0, 0, 0, 0] + ([0, 0, 0, 0, 0, 0, 0, 0, 0, 0, 0, 0] + [8, 0, 0, 0])
  {
    hide Be32, Gap;
    Be32Is(PROP, 0, 0, 0, 3);
    Be32Is(0, 0, 0, 0, 0);
    Be32Is(16, 0, 0, 0, 16);
    Be32Is(0x800_0000, 8, 0, 0, 0);
    GapReachesBoundary(16);
    var value := Zeros(12) + Be32(0x800_0000);
    assert Padded(value) == value;
    assert Zeros(12) == [0, 0, 0, 0, 0, 0, 0, 0, 0, 0, 0, 0];
  }

  lemma EndTokens()
    ensures Encoded(End) == [0, 0, 0, 2] && Be32(END) == [0, 0, 0, 9]
  {
    EncodedBytes(End);
  }

  // It boots, from any empty heap with room for the tree and the bitmap; the bits set are those of
  // the page that holds the devicetree and of the 256 pages of the kernel.
  lemma BootGetsUp(limit: nat, cursor: nat)
    requires 0 < cursor && cursor + 568 + 4096 < limit <= 0xFFFF_FFFF_FFF0_0000
    ensures |DEVICETREE| == 128
    ensures var r := BringUp(DEVICETREE, limit, EmptyStore(cursor), MACHINE);
            && r.Up? && r.bitmapAt == cursor + 568 && |r.pages.bm| == 512
            && forall i | 0 <= i < 64 * 512 :: IsSet(r.pages.bm, i) <==> i == 0x7000 || 0x200 <= i < 0x300
  {
    hide PlainDtb, PlainEvents, MemoryTree, Writable, TokenBytes, StringsBlock, StringsTable, PropNames, Image;
    hide LoopBound, LastToken, TokensBelow, Tokens, Left, Size, ParseBlob, BringUp;
    hide MemorySize, SizeInTree, Keep, Initial, Read32, IsSet, InWholePages, HEADER_BYTES, STRUCT_BYTES;
    var t := MemoryTree(0x800_0000);
    MemoryTreeWritable(0x800_0000);
    MemoryTreeSize(0x800_0000);
    PlainSize(t);
    PlainIsImage(t);
    DevicetreeBytes();
    var blob: Blob := PlainDtb(t);
    AllLeft(blob, t, StringsTable(PropNames(t)), PlainEvents(t));
    BootOnTree(blob, t, StringsTable(PropNames(t)), PlainEvents(t), limit, EmptyStore(cursor), MACHINE);
    RegionsInside(blob);
    assert BitmapSize(0x800_0000) == 4096;
    var bm := BringUp(blob, limit, EmptyStore(cursor), MACHINE).pages.bm;
    forall i | 0 <= i < 64 * 512 ensures IsSet(bm, i) <==> i == 0x7000 || 0x200 <= i < 0x300 {
      BootReserves(blob, limit, EmptyStore(cursor), MACHINE, 4096, i);
      MachinePages(i);
    }
  }

  lemma MachinePages(i: nat)
    ensures InWholePages(4096 * i, (0x8700_0000 - 0x8000_0000) % 0x1_0000_0000_0000_0000, 4096) <==> i == 0x7000
    ensures var start := (0xFFFF_FFFF_8020_0000 - 0xFFFF_FFFF_0000_0000 - 0x8000_0000) % 0x1_0000_0000_0000_0000;
            InWholePages(4096 * i, start, 0x10_0000) <==> 0x200 <= i < 0x300
  {
  }

  lemma RegionsInside(blob: Blob)
    requires HasHeader(blob) && TotalSize(blob) == 128
    ensures var p := Initial(0x800_0000); Legal(FdtRegion(blob, MACHINE), p) && Legal(KernelRegion(MACHINE), p)
  {
    hide Read32;
    assert RoundToPage(128) / PAGE == 1;
    assert AddressToBitIndex(0x8000_0000, 0x8700_0000) == 0x7000;
    assert AddressToBitIndex(0x8000_0000, 0x8020_0000) == 0x200;
    assert Wrap64(0x8020_0000) == 0x8020_0000;
    assert |Initial(0x800_0000).bm| == 512;
  }
}
