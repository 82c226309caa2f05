// The page allocator itself (kernel/mm/phys/kpalloc.c), line 106 included as it stands.
module PageAllocator {
  import opened Words
  import opened PageBitmap
  import opened PageRuns
  import EternalHeap

  // Address arithmetic is 64-bit.
  function AddressToBitIndex(base: nat, address: nat): (r: nat) {
    Wrap64(address - base) / PAGE
  }

  function BitIndexToPageAddress(base: nat, bit: nat): (r: nat) {
    Wrap64(base + bit * PAGE)
  }

  // The page an address falls in, counted from the base; addresses below the base wrap around.
  lemma BitOfAddress(base: nat, address: nat)
    ensures var offset, bit := (address - base) % 0x1_0000_0000_0000_0000, AddressToBitIndex(base, address);
            bit * 4096 <= offset < (bit + 1) * 4096
    ensures base <= address < 0x1_0000_0000_0000_0000 ==>
              AddressToBitIndex(base, address) * 4096 <= address - base < (AddressToBitIndex(base, address) + 1) * 4096
  {
    WrapIsResidue(address - base);
  }

  // The page of bit i starts 4096 * i bytes past the base.
  lemma AddressOfBit(base: nat, bit: nat)
    ensures BitIndexToPageAddress(base, bit) == (base + 4096 * bit) % 0x1_0000_0000_0000_0000
  {
    WrapIsResidue(base + bit * PAGE);
  }

  // A place lies in the whole pages of a region that starts at `offset`, from the page it starts in.
  predicate InWholePages(at: nat, offset: nat, length: nat) {
    offset - offset % 4096 <= at < offset - offset % 4096 + (length - length % 4096)
  }

  lemma WholePages(base: nat, address: nat, length: nat, j: nat)
    ensures AddressToBitIndex(base, address) <= j < AddressToBitIndex(base, address) + length / PAGE <==>
            InWholePages(4096 * j, (address - base) % 0x1_0000_0000_0000_0000, length)
  {
    hide AddressToBitIndex;
    BitOfAddress(base, address);
    var offset, bit := (address - base) % 0x1_0000_0000_0000_0000, AddressToBitIndex(base, address);
    assert offset - offset % 4096 == bit * 4096;
    assert length - length % 4096 == length / PAGE * 4096;
  }

  // The two conversions undo each other on every page below the end of the address space.
  lemma AddressRoundTrip(base: nat, bit: nat)
    requires base + bit * PAGE < WORD64
    ensures AddressToBitIndex(base, BitIndexToPageAddress(base, bit)) == bit
    ensures BitIndexToPageAddress(base, bit) % PAGE == 0 <==> base % PAGE == 0
  {
    var a := base + bit * PAGE;
    assert Wrap64(a) == a && Wrap64(a - base) == bit * PAGE;
    assert bit * PAGE / PAGE == bit;
    assert a % PAGE == base % PAGE;
  }

  // Increasing bits are increasing addresses.
  lemma AddressesAscend(base: nat, i: nat, j: nat)
    requires i < j && base + j * PAGE < WORD64
    ensures BitIndexToPageAddress(base, i) < BitIndexToPageAddress(base, j)
  {
    assert i * PAGE < j * PAGE;
  }

  // The pointers a drain returns go up strictly, and each converts back to its own bit; they can
  // be freed exactly when the base address is page aligned.
  lemma DrainedAddresses(bm: Bitmap, base: nat)
    requires base + PAGE * (BITS * |bm|) <= WORD64
    ensures var s := Clears(bm, 0);
            && (forall i, j | 0 <= i < j < |s| :: BitIndexToPageAddress(base, s[i]) < BitIndexToPageAddress(base, s[j]))
            && (forall i | 0 <= i < |s| ::
                  && AddressToBitIndex(base, BitIndexToPageAddress(base, s[i])) == s[i]
                  && (BitIndexToPageAddress(base, s[i]) % PAGE == 0 <==> base % PAGE == 0))
  {
    hide Clears, BitIndexToPageAddress, AddressToBitIndex, Clear;
    var s := Clears(bm, 0);
    ClearsMeaning(bm);
    forall i | 0 <= i < |s| ensures base + s[i] * PAGE < WORD64 { ClearInRange(bm, s[i]); }
    forall i, j | 0 <= i < j < |s| ensures BitIndexToPageAddress(base, s[i]) < BitIndexToPageAddress(base, s[j]) {
      AddressesAscend(base, s[i], s[j]);
    }
    forall i | 0 <= i < |s|
      ensures AddressToBitIndex(base, BitIndexToPageAddress(base, s[i])) == s[i]
      ensures BitIndexToPageAddress(base, s[i]) % PAGE == 0 <==> base % PAGE == 0
    {
      AddressRoundTrip(base, s[i]);
    }
  }

  lemma ClearInRange(bm: Bitmap, i: nat)
    requires i in Clears(bm, 0)
    ensures i < BITS * |bm|
  {
    ClearsMembers(bm, 0, i);
  }

  lemma {:induction false} FirstOpenAt(bm: Bitmap, k: nat)
    requires k <= |bm| && (forall i | 0 <= i < k :: bm[i] == FULL) && (k < |bm| ==> bm[k] != FULL)
    ensures FirstOpen(bm) == k
  {
    var o := FirstOpen(bm);
    assert o <= k && !(o < k);
  }

  class Allocator {
    var pageBitmap: array<Word>
    var bitmapAddress: nat
    var freePages: nat
    var physBase: nat

    constructor ()
      ensures pageBitmap.Length == 0 && freePages == 0 && physBase == 0 && fresh(pageBitmap)
    {
      pageBitmap := new Word[0];
      bitmapAddress, freePages, physBase := 0, 0, 0;
    }

    // srv_kpalloc_InitPageAllocator. The heap hands out zeroed memory; false is the heap's panic.
    method Init(base: nat, memorySize: nat, heap: EternalHeap.Heap) returns (ok: bool)
      requires memorySize < WORD64 && base < WORD64
      modifies this, heap
      ensures var bytes := memorySize / PAGE / BITS * 8;
              ok <==> EternalHeap.Bump(old(heap.cursor), heap.limit, bytes).Some?
      ensures ok ==>
                && fresh(pageBitmap) && pageBitmap[..] == Initial(memorySize).bm
                && freePages == Initial(memorySize).free
                && physBase == base && bitmapAddress == old(heap.cursor)
                && heap.cursor == EternalHeap.Bump(old(heap.cursor), heap.limit, memorySize / PAGE / BITS * 8).value
    {
      physBase := base;
      freePages := memorySize / PAGE;
      var entries := freePages / BITS;
      var p := heap.EternalAlloc(entries * 8);
      if p.None? {
        return false;
      }
      bitmapAddress := p.value;
      pageBitmap := new Word[entries](i => 0);
      ok := true;
    }

    method SetPageBit(bit: nat)
      requires bit < BITS * pageBitmap.Length
      modifies pageBitmap
      ensures pageBitmap[..] == SetBit(old(pageBitmap[..]), bit)
    {
      pageBitmap[bit / BITS] := pageBitmap[bit / BITS] | Mask(bit % BITS);
    }

    method UnsetPageBit(bit: nat)
      requires bit < BITS * pageBitmap.Length
      modifies pageBitmap
      ensures pageBitmap[..] == UnsetBit(old(pageBitmap[..]), bit)
    {
      pageBitmap[bit / BITS] := pageBitmap[bit / BITS] & !Mask(bit % BITS);
    }

    // srv_kpalloc_AllocPage; no value is NULL.
    method AllocPage() returns (page: Option<nat>)
      modifies this`freePages, pageBitmap
      ensures pageBitmap[..] == TakeLiteral(old(pageBitmap[..])).0
      ensures page == match FirstFit(old(pageBitmap[..]), 0)
                      case None => None
                      case Some(i) => Some(BitIndexToPageAddress(physBase, i))
      ensures freePages == if page.Some? then Wrap64(old(freePages) - 1) else old(freePages)
    {
      hide IsSet, InWord, Mask, Or;
      ghost var bm := pageBitmap[..];
      LiteralIff(bm);
      var bitIndex := 0;
      var bitmapIndex := 0;
      while bitmapIndex < pageBitmap.Length
        invariant bitmapIndex <= pageBitmap.Length && bitIndex == BITS * bitmapIndex
        invariant forall k | 0 <= k < bitmapIndex :: bm[k] == FULL
        invariant pageBitmap[..] == bm && freePages == old(freePages)
      {
        var entry := pageBitmap[bitmapIndex];
        if entry == FULL {
          bitIndex := bitIndex + BITS;
          bitmapIndex := bitmapIndex + 1;
          continue;
        }
        FirstOpenAt(bm, bitmapIndex);
        if entry == 0 {
          SetPageBit(0);
          page := Some(BitIndexToPageAddress(physBase, bitIndex));
          freePages := Wrap64(freePages - 1);
          return;
        } else {
          var firstFree := TrailingOnes(entry);
          SetPageBit(bitIndex + firstFree);
          page := Some(BitIndexToPageAddress(physBase, bitIndex + firstFree));
          freePages := Wrap64(freePages - 1);
          return;
        }
      }
      FirstOpenAt(bm, pageBitmap.Length);
      page := None;
    }

    // srv_kpalloc_FreePage. A page outside the bitmap would have the code write past it, which
    // ends the model.
    method FreePage(address: nat) returns (status: FreeStatus)
      modifies this`freePages, pageBitmap
      ensures status == if address % PAGE != 0 then Misaligned
                        else if AddressToBitIndex(physBase, address) < BITS * pageBitmap.Length then Freed
                        else OutOfBitmap
      ensures status.Freed? ==>
                && pageBitmap[..] == UnsetBit(old(pageBitmap[..]), AddressToBitIndex(physBase, address))
                && freePages == Wrap64(old(freePages) + 1)
      ensures !status.Freed? ==> pageBitmap[..] == old(pageBitmap[..]) && freePages == old(freePages)
    {
      if address % PAGE != 0 {
        return Misaligned;
      }
      var bitIndex := AddressToBitIndex(physBase, address);
      if bitIndex >= BITS * pageBitmap.Length {
        return OutOfBitmap;
      }
      UnsetPageBit(bitIndex);
      freePages := Wrap64(freePages + 1);
      status := Freed;
    }

    // srv_kpalloc_MarkRegionUnusable. False: the region runs out of the bitmap, past which the code
    // would write on; the model ends with the bits up to there set.
    method MarkRegionUnusable(base: nat, length: nat) returns (inside: bool)
      modifies pageBitmap
      ensures inside <==> InBitmap(old(pageBitmap[..]), AddressToBitIndex(physBase, base), length / PAGE)
      ensures inside ==>
                pageBitmap[..] == ReserveBits(old(pageBitmap[..]), AddressToBitIndex(physBase, base), length / PAGE)
      ensures forall j | 0 <= j < BITS * pageBitmap.Length ::
                IsSet(pageBitmap[..], j) <==>
                IsSet(old(pageBitmap[..]), j) ||
                InWholePages(4096 * j, (base - physBase) % 0x1_0000_0000_0000_0000, length)
    {
      hide IsSet, SetBit, ReserveBits, InWholePages, AddressToBitIndex;
      forall j: nat
        ensures AddressToBitIndex(physBase, base) <= j < AddressToBitIndex(physBase, base) + length / PAGE <==>
                InWholePages(4096 * j, (base - physBase) % 0x1_0000_0000_0000_0000, length)
      {
        WholePages(physBase, base, length, j);
      }
      ghost var bm := pageBitmap[..];
      var pages := length / PAGE;
      var first := AddressToBitIndex(physBase, base);
      var bit := first;
      var page := 0;
      NoneReserved(bm, first);
      while page < pages
        invariant page <= pages && bit == first + page && InBitmap(bm, first, page)
        invariant pageBitmap[..] == ReserveBits(bm, first, page)
      {
        if bit >= BITS * pageBitmap.Length {
          AllReserved(bm, first, page, first + pages);
          return false;
        }
        SetPageBit(bit);
        OneMoreReserved(bm, first, page);
        bit := bit + 1;
        page := page + 1;
      }
      AllReserved(bm, first, pages, first + pages);
      inside := true;
    }
  }

  datatype FreeStatus = Freed | Misaligned | OutOfBitmap

  lemma NoneReserved(bm: Bitmap, first: nat)
    ensures ReserveBits(bm, first, 0) == bm
  {
  }

  lemma {:induction false} OneMoreReserved(bm: Bitmap, first: nat, pages: nat)
    requires first + pages < BITS * |bm|
    ensures ReserveBits(bm, first, pages + 1) == SetBit(ReserveBits(bm, first, pages), first + pages)
    decreases pages
  {
    hide SetBit;
    if pages > 0 { OneMoreReserved(SetBit(bm, first), first + 1, pages - 1); }
  }

  lemma AllReserved(bm: Bitmap, first: nat, pages: nat, end: nat)
    requires InBitmap(bm, first, pages) && (end == first + pages || BITS * |bm| <= first + pages <= end)
    ensures forall j | 0 <= j < BITS * |bm| ::
              IsSet(ReserveBits(bm, first, pages), j) <==> IsSet(bm, j) || first <= j < end
  {
    hide IsSet, ReserveBits;
    forall j | 0 <= j < BITS * |bm|
      ensures IsSet(ReserveBits(bm, first, pages), j) <==> IsSet(bm, j) || first <= j < end
    {
      ReserveSets(bm, first, pages, j);
    }
  }

  // ---- Regions in bytes ----

  // The reserved pages cover every byte of the region [offset, offset + length).
  predicate Covers(offset: nat, length: nat, rounded: nat) {
    forall b | offset <= b < offset + length :: InPages(b, offset / PAGE, rounded / PAGE)
  }

  predicate InPages(b: nat, first: nat, pages: nat) {
    first * PAGE <= b < (first + pages) * PAGE
  }

  // Reserving `rounded` bytes for a region of `length` bytes covers it exactly when the region's
  // offset in its first page plus its length fits the whole pages reserved.
  lemma CoversIff(offset: nat, length: nat, rounded: nat)
    requires length > 0
    ensures Covers(offset, length, rounded) <==> offset % 4096 + length <= rounded / 4096 * 4096
  {
    var last := offset + length - 1;
    assert offset == offset / PAGE * PAGE + offset % PAGE;
    assert (offset / PAGE + rounded / PAGE) * PAGE == offset / PAGE * PAGE + rounded / PAGE * PAGE;
    if Covers(offset, length, rounded) { assert InPages(last, offset / PAGE, rounded / PAGE); }
  }

  // The page of a byte is among those that a region is reserved with.
  predicate ByteReserved(physBase: nat, base: nat, rounded: nat, b: nat)
    requires physBase <= b
  {
    AddressToBitIndex(physBase, base) <= (b - physBase) / 4096 < AddressToBitIndex(physBase, base) + rounded / 4096
  }

  // The same on the allocator's bits: those of all bytes of the region are reserved exactly then.
  lemma ReservedIff(physBase: nat, base: nat, length: nat, rounded: nat)
    requires length > 0 && physBase <= base && base + length <= 0x1_0000_0000_0000_0000
    ensures (forall b | base <= b < base + length :: ByteReserved(physBase, base, rounded, b)) <==>
            (base - physBase) % 4096 + length <= rounded / 4096 * 4096
  {
    hide AddressToBitIndex;
    BitOfAddress(physBase, base);
    var first := AddressToBitIndex(physBase, base);
    assert first == (base - physBase) / 4096;
    if forall b | base <= b < base + length :: ByteReserved(physBase, base, rounded, b) {
      assert ByteReserved(physBase, base, rounded, base + length - 1);
    }
  }

  // A region reserved by its own length is covered exactly when it starts and ends on page bounds.
  lemma CoversExactIff(offset: nat, length: nat)
    requires length > 0
    ensures Covers(offset, length, length) <==> offset % 4096 == 0 && length % 4096 == 0
  {
    CoversIff(offset, length, length);
    assert length == length / PAGE * PAGE + length % PAGE;
  }

  function RoundToPage(value: nat): (r: nat) {
    Wrap64(value + PAGE - 1) / PAGE * PAGE
  }

  // The devicetree blob, reserved with its size rounded up.
  lemma BlobCoveredIff(offset: nat, totalSize: nat)
    requires 0 < totalSize < WORD32
    ensures totalSize <= RoundToPage(totalSize) < totalSize + 4096 && RoundToPage(totalSize) % 4096 == 0
    ensures Covers(offset, totalSize, RoundToPage(totalSize)) <==> offset % 4096 + totalSize <= RoundToPage(totalSize)
  {
    var up := totalSize + PAGE - 1;
    assert Wrap64(up) == up && up == up / PAGE * PAGE + up % PAGE;
    CoversIff(offset, totalSize, RoundToPage(totalSize));
  }

  // A page-sized region that does not start on a page bound, and a blob that starts 8 bytes into a
  // page and fills the pages its rounded size counts, are not covered to their ends.
  lemma TailsUncovered()
    ensures !Covers(1, PAGE, PAGE)
    ensures !Covers(8, PAGE, RoundToPage(PAGE)) && Covers(8, PAGE - 8, RoundToPage(PAGE - 8))
  {
    CoversExactIff(1, PAGE);
    BlobCoveredIff(8, PAGE);
    BlobCoveredIff(8, PAGE - 8);
  }

  // A memory size below 2^32 never asks for more than 131064 bytes of bitmap.
  lemma BitmapBytes(memorySize: nat)
    requires memorySize < WORD32
    ensures memorySize / PAGE / BITS * 8 <= 131064 && memorySize / PAGE / BITS * 8 % 8 == 0
    ensures |Initial(memorySize).bm| * 8 == memorySize / PAGE / BITS * 8
  {
    assert memorySize / PAGE <= 1048575;
    assert memorySize / PAGE / BITS <= 16383;
  }
}
