// The Sv39 page-table walk, the translation algorithm it should agree with, and the boot
// mapper (hal/rv64/sv39_vm.c, kernel/boot/rv64/start.s).
module Sv39 {
  import opened Words

  // Physical memory in eight-byte words, by address.
  datatype Address = At(byte: Word)
  type Memory = map<Address, Word>

  // The register instructions the boot mapper uses; the C code's operators are the same ones.
  function Srl(x: Word, shift: bv6): (r: Word) {
    x >> shift
  }

  function Sll(x: Word, shift: bv6): (r: Word) {
    x << shift
  }

  function And(x: Word, y: Word): (r: Word) {
    x & y
  }

  function Or(x: Word, y: Word): (r: Word) {
    x | y
  }

  function Add(x: Word, y: Word): (r: Word) {
    x + y
  }

  const VALID: Word := 0x1
  const READ: Word := 0x2
  const WRITE: Word := 0x4
  const EXECUTE: Word := 0x8
  const DIRTY: Word := 0x80
  const LEVELS: nat := 3

  // rv64_GetVPN0, rv64_GetVPN1 and rv64_GetVPN2
  function Vpn(va: Word, level: nat): (r: Word)
    requires level < LEVELS
  {
    if level == 0 then And(Srl(va, 12), 0x1FF)
    else if level == 1 then And(Srl(va, 21), 0x1FF)
    else And(Srl(va, 30), 0x1FF)
  }

  function PteToPhys(pte: Word): (r: Word) {
    Sll(And(Srl(pte, 10), 0xFFF_FFFF_FFFF), 12)
  }

  predicate IsValid(pte: Word) {
    pte & VALID != 0
  }

  predicate IsLeaf(pte: Word) {
    pte & (READ | WRITE | EXECUTE) != 0 && IsValid(pte)
  }

  predicate IsDirty(pte: Word) {
    And(pte, DIRTY) != 0
  }

  function EntryAt(table: Word, index: Word): (r: Address) {
    At(Add(table, Sll(index, 3)))
  }

  // A leaf entry with its address and level; the level at which nothing is mapped; or an entry
  // outside the memory.
  datatype Found = Leaf(at: Address, level: nat) | Unmapped(level: nat) | Unreadable

  // What the walk finds from a table at `level` downwards.
  function WalkFrom(mem: Memory, table: Word, va: Word, level: nat): (r: Found)
    requires level < LEVELS
    ensures r.Leaf? ==> r.at in mem && IsLeaf(mem[r.at]) && r.level <= level
    ensures r.Unmapped? ==> r.level <= level
    decreases level
  {
    var at := EntryAt(table, Vpn(va, level));
    if at !in mem then Unreadable
    else if !IsValid(mem[at]) then Unmapped(level)
    else if IsLeaf(mem[at]) then Leaf(at, level)
    else if level == 0 then Unmapped(0)
    else WalkFrom(mem, PteToPhys(mem[at]), va, level - 1)
  }

  function Walk(mem: Memory, root: Word, va: Word): (r: Found) {
    WalkFrom(mem, root, va, LEVELS - 1)
  }

  // srv_hal_WalkPageTable; no leaf is NULL.
  method WalkPageTable(mem: Memory, root: Word, va: Word) returns (pte: Found)
    ensures pte == Walk(mem, root, va)
  {
    hide Vpn, PteToPhys, IsValid, IsLeaf, EntryAt;
    var currTable := root;
    var level := LEVELS;
    pte := Unmapped(0);
    while level > 0
      invariant 0 <= level <= LEVELS
      invariant level > 0 ==> Walk(mem, root, va) == WalkFrom(mem, currTable, va, level - 1)
      invariant level == 0 ==> Walk(mem, root, va) == pte
    {
      var at := EntryAt(currTable, Vpn(va, level - 1));
      if at !in mem {
        return Unreadable;
      }
      if IsValid(mem[at]) {
        if IsLeaf(mem[at]) {
          return Leaf(at, level - 1);
        }
        currTable := PteToPhys(mem[at]);
      } else {
        return Unmapped(level - 1);
      }
      level := level - 1;
    }
  }

  // ---- The address-translation process (sections 4.3.2 and 4.4 of the RISC-V Privileged
  // Architecture, version 20211203), without permissions, accessed and dirty bits ----

  function Times(x: Word, y: Word): (r: Word) {
    x * y
  }

  // Fields by their bit positions: va[38:30], va[29:21], va[20:12], pte[53:10].
  function VaField(va: Word, level: nat): (r: Word)
    requires level < LEVELS
  {
    if level == 0 then (va << 43) >> 55
    else if level == 1 then (va << 34) >> 55
    else (va << 25) >> 55
  }

  function PpnField(pte: Word): (r: Word) {
    (pte << 10) >> 20
  }

  function PteAddress(a: Word, va: Word, i: nat): (r: Address)
    requires i < LEVELS
  {
    At(Add(a, Times(VaField(va, i), 8)))
  }

  function NextTable(pte: Word): (r: Word) {
    Times(PpnField(pte), 4096)
  }

  // Bit 0 is V, bit 1 is R, bit 2 is W, bit 3 is X.
  predicate Present(pte: Word) {
    pte & 0x1 != 0
  }

  predicate ReadOrExecute(pte: Word) {
    pte & 0x2 != 0 || pte & 0x8 != 0
  }

  // Bits 63 to 39 all equal bit 38.
  predicate Canonical(va: Word) {
    (va >> 38) == 0 || (va >> 38) == 0x3FF_FFFF
  }

  // Bits 63 to 54, and D, A and U in an entry that points to a table.
  predicate Reserved(pte: Word) {
    (pte >> 54) != 0 || (pte & 0xA == 0 && pte & 0xD0 != 0)
  }

  predicate WriteOnly(pte: Word) {
    pte & 0x2 == 0 && pte & 0x4 != 0
  }

  // The low page numbers of a superpage are zero.
  predicate AlignedLeaf(pte: Word, level: nat)
    requires level < LEVELS
  {
    if level == 0 then true
    else if level == 1 then PpnField(pte) & 0x1FF == 0
    else PpnField(pte) & 0x3_FFFF == 0
  }

  datatype Translation = Entry(at: Address, level: nat) | PageFault | AccessFault

  function TranslateFrom(mem: Memory, a: Word, va: Word, i: nat): (r: Translation)
    requires i < LEVELS
    decreases i
  {
    var at := PteAddress(a, va, i);
    if at !in mem then AccessFault
    else
      var pte := mem[at];
      if !Present(pte) || WriteOnly(pte) || Reserved(pte) then PageFault
      else if ReadOrExecute(pte) then
        if AlignedLeaf(pte, i) then Entry(at, i) else PageFault
      else if i == 0 then PageFault
      else TranslateFrom(mem, NextTable(pte), va, i - 1)
  }

  function Translate(mem: Memory, root: Word, va: Word): (r: Translation) {
    if Canonical(va) then TranslateFrom(mem, root, va, LEVELS - 1) else PageFault
  }

  predicate Agree(f: Found, t: Translation) {
    match f
    case Leaf(at, level) => t == Entry(at, level)
    case Unmapped(_) => t.PageFault?
    case Unreadable => t.AccessFault?
  }

  // No entry on the walk's way is write-only or has reserved bits set, and the leaf is aligned.
  predicate CleanPath(mem: Memory, table: Word, va: Word, level: nat)
    requires level < LEVELS
    decreases level
  {
    var at := EntryAt(table, Vpn(va, level));
    at in mem && IsValid(mem[at]) ==>
      && !WriteOnly(mem[at]) && !Reserved(mem[at])
      && if IsLeaf(mem[at]) then AlignedLeaf(mem[at], level)
         else level > 0 ==> CleanPath(mem, PteToPhys(mem[at]), va, level - 1)
  }

  lemma Field0(va: Word)
    ensures VaField(va, 0) == Vpn(va, 0)
  {
  }

  lemma Field1(va: Word)
    ensures VaField(va, 1) == Vpn(va, 1)
  {
  }

  lemma Field2(va: Word)
    ensures VaField(va, 2) == Vpn(va, 2)
  {
  }

  lemma TimesEight(w: Word)
    ensures Times(w, 8) == Sll(w, 3)
  {
  }

  lemma FieldsAgree(va: Word, level: nat, a: Word)
    requires level < LEVELS
    ensures EntryAt(a, Vpn(va, level)) == PteAddress(a, va, level)
  {
    hide Vpn, VaField, Times, Sll, Add;
    if level == 0 { Field0(va); } else if level == 1 { Field1(va); } else { Field2(va); }
    TimesEight(Vpn(va, level));
  }

  lemma PpnAgrees(pte: Word)
    ensures PteToPhys(pte) == NextTable(pte)
  {
  }

  // Apart from write-only entries, a valid entry with R, W or X set is what the
  // architecture calls a leaf.
  lemma LeafAgrees(pte: Word)
    requires IsValid(pte) && !WriteOnly(pte)
    ensures IsLeaf(pte) == ReadOrExecute(pte)
  {
  }

  lemma WriteOnlyIsLeaf(pte: Word)
    requires IsValid(pte) && WriteOnly(pte)
    ensures IsLeaf(pte)
  {
  }

  lemma ValidIsPresent(pte: Word)
    ensures IsValid(pte) == Present(pte)
  {
  }

  // One entry: the walk and the architecture treat it alike, or it is not clean.
  lemma EntryAgrees(mem: Memory, table: Word, va: Word, level: nat)
    requires level < LEVELS
    ensures EntryAt(table, Vpn(va, level)) == PteAddress(table, va, level)
    ensures var at := EntryAt(table, Vpn(va, level));
            at in mem ==>
              && IsValid(mem[at]) == Present(mem[at]) && PteToPhys(mem[at]) == NextTable(mem[at])
              && (IsValid(mem[at]) ==> (IsLeaf(mem[at]) <==> WriteOnly(mem[at]) || ReadOrExecute(mem[at])))
  {
    hide Vpn, PteAddress, EntryAt, PteToPhys, NextTable, IsLeaf, IsValid, WriteOnly, ReadOrExecute;
    FieldsAgree(va, level, table);
    var at := EntryAt(table, Vpn(va, level));
    if at in mem {
      ValidIsPresent(mem[at]);
      PpnAgrees(mem[at]);
    }
    if at in mem && IsValid(mem[at]) {
      if WriteOnly(mem[at]) { WriteOnlyIsLeaf(mem[at]); } else { LeafAgrees(mem[at]); }
    }
  }

  lemma {:induction false} AgreeFromIff(mem: Memory, table: Word, va: Word, level: nat)
    requires level < LEVELS
    ensures Agree(WalkFrom(mem, table, va, level), TranslateFrom(mem, table, va, level)) <==>
            WalkFrom(mem, table, va, level).Unmapped? || CleanPath(mem, table, va, level)
    ensures WalkFrom(mem, table, va, level).Unmapped? ==> TranslateFrom(mem, table, va, level).PageFault?
    decreases level
  {
    hide Vpn, PteAddress, EntryAt, PteToPhys, NextTable, IsLeaf;
    hide IsValid, WriteOnly, Reserved, AlignedLeaf, ReadOrExecute;
    EntryAgrees(mem, table, va, level);
    var at := EntryAt(table, Vpn(va, level));
    if at in mem && IsValid(mem[at]) && !IsLeaf(mem[at]) && level > 0 {
      AgreeFromIff(mem, PteToPhys(mem[at]), va, level - 1);
    }
  }

  // The walk and the architecture find the same entry, or none, exactly when nothing is mapped,
  // or the address is canonical and the entries on the way are well formed.
  lemma WalkAgreesIff(mem: Memory, root: Word, va: Word)
    ensures Agree(Walk(mem, root, va), Translate(mem, root, va)) <==>
            Walk(mem, root, va).Unmapped? || (Canonical(va) && CleanPath(mem, root, va, LEVELS - 1))
  {
    hide Canonical, CleanPath, WalkFrom, TranslateFrom;
    AgreeFromIff(mem, root, va, LEVELS - 1);
  }

  // ---- The reach of an entry ----

  // The two addresses agree on bits 38 down to 12 + 9 * level.
  predicate SameDown(va: Word, vb: Word, level: nat)
    requires level < LEVELS
  {
    Vpn(va, 2) == Vpn(vb, 2) && (level <= 1 ==> Vpn(va, 1) == Vpn(vb, 1)) && (level == 0 ==> Vpn(va, 0) == Vpn(vb, 0))
  }

  lemma Vpn2Bits(va: Word, vb: Word)
    requires (va ^ vb) & 0x7F_C000_0000 == 0
    ensures Vpn(va, 2) == Vpn(vb, 2)
  {
  }

  lemma Vpn1Bits(va: Word, vb: Word)
    requires (va ^ vb) & 0x7F_FFE0_0000 == 0
    ensures Vpn(va, 1) == Vpn(vb, 1) && (va ^ vb) & 0x7F_C000_0000 == 0
  {
  }

  lemma Vpn0Bits(va: Word, vb: Word)
    requires (va ^ vb) & 0x7F_FFFF_F000 == 0
    ensures Vpn(va, 0) == Vpn(vb, 0) && (va ^ vb) & 0x7F_FFE0_0000 == 0
  {
  }

  // Bits 38 down to 12 + 9 * level.
  function AddressMask(level: nat): (r: Word) {
    if level == 0 then 0x7F_FFFF_F000 else if level == 1 then 0x7F_FFE0_0000 else 0x7F_C000_0000
  }

  predicate AgreeAbove(va: Word, vb: Word, level: nat) {
    (va ^ vb) & AddressMask(level) == 0
  }

  lemma SameDownBits(va: Word, vb: Word, level: nat)
    requires level < LEVELS && AgreeAbove(va, vb, level)
    ensures SameDown(va, vb, level)
  {
    hide Vpn;
    if level == 0 { Vpn0Bits(va, vb); }
    if level <= 1 { Vpn1Bits(va, vb); }
    Vpn2Bits(va, vb);
  }

  function StopLevel(f: Found): (r: nat) {
    match f case Leaf(_, level) => level case Unmapped(level) => level case Unreadable => 0
  }

  lemma {:induction false} SameFrom(mem: Memory, table: Word, va: Word, vb: Word, level: nat)
    requires level < LEVELS && SameDown(va, vb, StopLevel(WalkFrom(mem, table, va, level)))
    ensures WalkFrom(mem, table, vb, level) == WalkFrom(mem, table, va, level)
    decreases level
  {
    hide Vpn, EntryAt, PteToPhys, IsLeaf, IsValid;
    assert Vpn(va, level) == Vpn(vb, level);
    var at := EntryAt(table, Vpn(va, level));
    if at in mem && IsValid(mem[at]) && !IsLeaf(mem[at]) && level > 0 {
      SameFrom(mem, PteToPhys(mem[at]), va, vb, level - 1);
    }
  }

  // A walk that stops at level L gives the same answer for every address with the same bits
  // 38 down to 12 + 9L.
  lemma SameEntryForRegion(mem: Memory, root: Word, va: Word, vb: Word)
    requires AgreeAbove(va, vb, StopLevel(Walk(mem, root, va)))
    ensures Walk(mem, root, vb) == Walk(mem, root, va)
  {
    hide WalkFrom, SameDown, AgreeAbove;
    SameDownBits(va, vb, StopLevel(Walk(mem, root, va)));
    SameFrom(mem, root, va, vb, LEVELS - 1);
  }

  // ---- Translation to a physical address ----

  // The leaf's page number above the page offset, the address's bits below it.
  function Physical(pte: Word, va: Word, level: nat): (r: Word) {
    if level == 0 then Or(PteToPhys(pte) & !0xFFF, va & 0xFFF)
    else if level == 1 then Or(PteToPhys(pte) & !0x1F_FFFF, va & 0x1F_FFFF)
    else Or(Upper(PteToPhys(pte)), LowBits(va))
  }

  // Bits of the address below the page: 12, and nine for each level above the last.
  function PageOffset(va: Word, level: nat): (r: Word) {
    if level == 0 then (va << 52) >> 52 else if level == 1 then (va << 43) >> 43 else (va << 34) >> 34
  }

  // For an aligned leaf that is the page number's address plus the offset (section 4.3.2, step 5).
  lemma PhysicalIsSum(pte: Word, va: Word, level: nat)
    requires level < LEVELS && AlignedLeaf(pte, level)
    ensures Physical(pte, va, level) == Add(NextTable(pte), PageOffset(va, level))
  {
    hide PteToPhys, NextTable, Physical, PageOffset, Add, AlignedLeaf;
    PpnAgrees(pte);
    if level == 0 { Physical0(pte, va); } else if level == 1 { Physical1(pte, va); } else { Physical2(pte, va); }
  }

  lemma BaseAligned0(pte: Word)
    ensures PteToPhys(pte) & 0xFFF == 0
  {
  }

  lemma Joined0(base: Word, va: Word)
    requires base & 0xFFF == 0
    ensures Or(base & !0xFFF, va & 0xFFF) == Add(base, (va << 52) >> 52)
  {
  }

  lemma Physical0(pte: Word, va: Word)
    ensures Physical(pte, va, 0) == Add(PteToPhys(pte), PageOffset(va, 0))
  {
    hide PteToPhys, AlignedLeaf, Or, Add;
    BaseAligned0(pte);
    Joined0(PteToPhys(pte), va);
  }

  lemma BaseAligned1(pte: Word)
    requires AlignedLeaf(pte, 1)
    ensures PteToPhys(pte) & 0x1F_FFFF == 0
  {
  }

  lemma Joined1(base: Word, va: Word)
    requires base & 0x1F_FFFF == 0
    ensures Or(base & !0x1F_FFFF, va & 0x1F_FFFF) == Add(base, (va << 43) >> 43)
  {
  }

  lemma Physical1(pte: Word, va: Word)
    requires AlignedLeaf(pte, 1)
    ensures Physical(pte, va, 1) == Add(PteToPhys(pte), PageOffset(va, 1))
  {
    hide PteToPhys, AlignedLeaf, Or, Add;
    BaseAligned1(pte);
    Joined1(PteToPhys(pte), va);
  }

  lemma BaseAligned2(pte: Word)
    requires AlignedLeaf(pte, 2)
    ensures PteToPhys(pte) & 0x3FFF_FFFF == 0
  {
  }

  lemma Joined2(base: Word, va: Word)
    requires base & 0x3FFF_FFFF == 0
    ensures Or(base & !0x3FFF_FFFF, va & 0x3FFF_FFFF) == Add(base, (va << 34) >> 34)
  {
  }

  lemma Physical2(pte: Word, va: Word)
    requires AlignedLeaf(pte, 2)
    ensures Physical(pte, va, 2) == Add(PteToPhys(pte), PageOffset(va, 2))
  {
    hide PteToPhys, AlignedLeaf, Or, Add;
    BaseAligned2(pte);
    Joined2(PteToPhys(pte), va);
  }

  // ---- The gigapage mapper ----

  function GigapagePte(pa: Word): (r: Word) {
    Or(Sll(Srl(pa, 30), 28), 0xF)
  }

  function Mapped(mem: Memory, root: Word, pa: Word, va: Word): (r: Memory) {
    mem[EntryAt(root, Vpn(va, 2)) := GigapagePte(pa)]
  }

  // The kernel's high alias of a physical address.
  function High(p: Word): (r: Word) {
    Add(0xFFFF_FFFF_0000_0000, p)
  }

  class Machine {
    var mem: Memory

    // __boot_map_virt_to_phys, register by register.
    method BootMapVirtToPhys(a0: Word, a1: Word, a2: Word)
      modifies this
      ensures mem == Mapped(old(mem), a0, a1, a2)
    {
      hide Srl, And, Sll, Or, Add;
      var t0 := Srl(a2, 30);
      t0 := And(t0, 0x1FF);
      var t1 := Srl(a1, 30);
      t1 := Sll(t1, 28);
      var t2: Word := 0xF;
      t1 := Or(t1, t2);
      t0 := Sll(t0, 3);
      t0 := Add(a0, t0);
      mem := mem[At(t0) := t1];
    }

    // srv_hal_MarkPTEValid, -Readable, -Writable and -Executable, by the flag they set.
    method MarkPte(at: Address, flag: Flag)
      requires at in mem
      modifies this
      ensures mem == old(mem)[at := Marked(old(mem)[at], flag)]
      ensures MarksOnly(old(mem)[at], mem[at], flag)
    {
      hide MarksOnly;
      FlagOnly(mem[at], flag);
      mem := mem[at := Marked(mem[at], flag)];
    }

    // The two mappings of _start, with the address of __boot_start.
    method BootMap(root: Word, bootStart: Word)
      modifies this
      ensures mem == Mapped(Mapped(old(mem), root, bootStart, bootStart), root, bootStart, High(bootStart))
    {
      hide Mapped, Add;
      BootMapVirtToPhys(root, bootStart, bootStart);
      var a2: Word := 0xFFFF_FFFF_0000_0000;
      a2 := Add(a2, bootStart);
      BootMapVirtToPhys(root, bootStart, a2);
    }
  }

  datatype Flag = V | R | W | X

  function Bit(flag: Flag): (r: Word) {
    match flag case V => VALID case R => READ case W => WRITE case X => EXECUTE
  }

  function Marked(pte: Word, flag: Flag): (r: Word) {
    Or(pte, Bit(flag))
  }

  // Where the architecture has the flag.
  function FlagBit(flag: Flag): (r: Word) {
    match flag case V => 0x1 case R => 0x2 case W => 0x4 case X => 0x8
  }

  predicate HasFlag(pte: Word, flag: Flag) {
    And(pte, FlagBit(flag)) != 0
  }

  predicate SameBesides(before: Word, after: Word, b: Word) {
    (before ^ after) & !b == 0
  }

  // The flag is set, and no other bit of the entry changes.
  predicate MarksOnly(before: Word, after: Word, flag: Flag) {
    HasFlag(after, flag) && SameBesides(before, after, FlagBit(flag))
  }

  lemma OrKeeps(pte: Word, b: Word)
    ensures SameBesides(pte, Or(pte, b), b)
  {
  }

  lemma OrSets(pte: Word, b: Word)
    requires b != 0
    ensures And(Or(pte, b), b) != 0
  {
  }

  lemma FlagBits(f: Flag)
    ensures Bit(f) == FlagBit(f) != 0
  {
  }

  lemma FlagOnly(pte: Word, flag: Flag)
    ensures MarksOnly(pte, Marked(pte, flag), flag)
  {
    hide Bit, FlagBit, And, Or, SameBesides;
    FlagBits(flag);
    OrKeeps(pte, Bit(flag));
    OrSets(pte, Bit(flag));
  }

  lemma OrLow(pte: Word, a: Word)
    requires a < 1024
    ensures PteToPhys(Or(pte, a)) == PteToPhys(pte)
  {
  }

  lemma FlagIsLow(f: Flag)
    ensures Bit(f) < 1024
  {
  }

  // The address an entry holds is not touched by a mark.
  lemma AddressKept(pte: Word, flag: Flag)
    ensures PteToPhys(Marked(pte, flag)) == PteToPhys(pte)
  {
    hide Bit, PteToPhys, Or;
    FlagIsLow(flag);
    OrLow(pte, Bit(flag));
  }

  // The tests of the code are about the bits the architecture names.
  lemma DirtyMeans(pte: Word)
    ensures IsDirty(pte) <==> pte & 0x80 != 0
  {
  }

  lemma LeafMeans(pte: Word)
    ensures IsValid(pte) <==> pte & 0x1 != 0
    ensures IsLeaf(pte) <==> pte & 0x1 != 0 && pte & 0xE != 0
  {
  }

  // pa has no bits past the 56 of a physical address.
  predicate FitsPhysical(pa: Word) {
    pa >> 56 == 0
  }

  function Upper(pa: Word): (r: Word) {
    pa & !0x3FFF_FFFF
  }

  function LowBits(q: Word): (r: Word) {
    q & 0x3FFF_FFFF
  }

  // The gigabyte of pa, with the low 30 bits of q.
  function SameGigabyte(pa: Word, q: Word): (r: Word) {
    Or(Upper(pa), LowBits(q))
  }

  lemma GigapagePteIsLeaf(pa: Word)
    ensures IsValid(GigapagePte(pa)) && IsLeaf(GigapagePte(pa)) && !WriteOnly(GigapagePte(pa))
    ensures AlignedLeaf(GigapagePte(pa), 2)
    ensures Reserved(GigapagePte(pa)) == !FitsPhysical(pa)
  {
  }

  // V, R, W and X are set, and U, G, A, D and the software bits are clear.
  lemma GigapageFlags(pa: Word)
    ensures GigapagePte(pa) & 0x3FF == 0xF
  {
  }

  lemma GigapageBase(pa: Word)
    ensures (Upper(PteToPhys(GigapagePte(pa))) == Upper(pa)) == FitsPhysical(pa)
  {
  }

  lemma JoinsDiffer(a: Word, b: Word, q: Word)
    ensures (Or(Upper(a), LowBits(q)) == Or(Upper(b), LowBits(q))) == (Upper(a) == Upper(b))
  {
  }

  lemma GigabytePhysical(pa: Word, q: Word)
    ensures (Physical(GigapagePte(pa), q, 2) == SameGigabyte(pa, q)) == FitsPhysical(pa)
  {
    hide GigapagePte, FitsPhysical, PteToPhys, Upper, LowBits, Or;
    GigapageBase(pa);
    JoinsDiffer(PteToPhys(GigapagePte(pa)), pa, q);
  }

  // Read over write: every address with the mapped index is found in the new entry; it
  // translates to the gigabyte of pa plus its own low 30 bits, and the architecture agrees,
  // exactly when pa is a 56-bit physical address.
  lemma ReadOverWrite(mem: Memory, root: Word, pa: Word, va: Word, q: Word)
    requires Vpn(q, 2) == Vpn(va, 2)
    ensures var m := Mapped(mem, root, pa, va);
            && Walk(m, root, q) == Leaf(EntryAt(root, Vpn(va, 2)), 2) && m[EntryAt(root, Vpn(va, 2))] == GigapagePte(pa)
            && GigapagePte(pa) & 0x3FF == 0xF
            && (Physical(GigapagePte(pa), q, 2) == SameGigabyte(pa, q) <==> FitsPhysical(pa))
            && (Canonical(q) ==> (Translate(m, root, q) == Entry(EntryAt(root, Vpn(va, 2)), 2) <==> FitsPhysical(pa)))
  {
    hide Vpn, EntryAt, PteToPhys, IsLeaf, IsValid, GigapagePte, Physical;
    hide Canonical, CleanPath, SameGigabyte, FitsPhysical, WriteOnly, AlignedLeaf, Reserved;
    GigapagePteIsLeaf(pa);
    GigapageFlags(pa);
    GigabytePhysical(pa, q);
    var m := Mapped(mem, root, pa, va);
    WalkAgreesIff(m, root, q);
    MappedPath(m, root, q, GigapagePte(pa));
  }

  lemma MappedPath(mem: Memory, root: Word, q: Word, pte: Word)
    requires EntryAt(root, Vpn(q, 2)) in mem && mem[EntryAt(root, Vpn(q, 2))] == pte
    requires IsValid(pte) && IsLeaf(pte) && !WriteOnly(pte) && AlignedLeaf(pte, 2)
    ensures CleanPath(mem, root, q, 2) <==> !Reserved(pte)
  {
    hide Vpn, EntryAt, WriteOnly, AlignedLeaf, Reserved, PteToPhys, IsValid, IsLeaf;
  }

  // The walk reads the entry at e.
  predicate Passes(mem: Memory, table: Word, q: Word, level: nat, e: Address)
    requires level < LEVELS
    decreases level
  {
    var at := EntryAt(table, Vpn(q, level));
    at == e ||
    (at in mem && IsValid(mem[at]) && !IsLeaf(mem[at]) && level > 0 && Passes(mem, PteToPhys(mem[at]), q, level - 1, e))
  }

  // A walk that does not read an entry is the same whatever the entry holds; so is the set of
  // entries it reads.
  lemma {:induction false} WalkAvoids(mem: Memory, e: Address, pte: Word, table: Word, q: Word, level: nat)
    requires level < LEVELS && !Passes(mem, table, q, level, e)
    ensures WalkFrom(mem[e := pte], table, q, level) == WalkFrom(mem, table, q, level)
    ensures forall d :: Passes(mem[e := pte], table, q, level, d) <==> Passes(mem, table, q, level, d)
    decreases level
  {
    hide Vpn, EntryAt, PteToPhys, IsLeaf, IsValid;
    var at := EntryAt(table, Vpn(q, level));
    if at in mem && IsValid(mem[at]) && !IsLeaf(mem[at]) && level > 0 {
      WalkAvoids(mem, e, pte, PteToPhys(mem[at]), q, level - 1);
    }
  }

  // A walk that does read it ends there once it holds a leaf.
  lemma {:induction false} WalkMeets(mem: Memory, e: Address, pte: Word, table: Word, q: Word, level: nat)
    requires level < LEVELS && Passes(mem, table, q, level, e) && IsLeaf(pte)
    ensures WalkFrom(mem[e := pte], table, q, level).Leaf? && WalkFrom(mem[e := pte], table, q, level).at == e
    ensures WalkFrom(mem[e := pte], table, q, level) == WalkFrom(mem, table, q, level) <==> e in mem && IsLeaf(mem[e])
    decreases level
  {
    hide Vpn, EntryAt, PteToPhys;
    var at := EntryAt(table, Vpn(q, level));
    if at != e { WalkMeets(mem, e, pte, PteToPhys(mem[at]), q, level - 1); }
  }

  // A mapping leaves a walk as it was exactly when the walk does not read the entry mapped, or the
  // entry was a leaf before.
  lemma WalkUnchangedIff(mem: Memory, root: Word, pa: Word, va: Word, q: Word)
    ensures var e := EntryAt(root, Vpn(va, 2));
            Walk(Mapped(mem, root, pa, va), root, q) == Walk(mem, root, q) <==>
            !Passes(mem, root, q, LEVELS - 1, e) || (e in mem && IsLeaf(mem[e]))
  {
    hide Vpn, EntryAt, WalkFrom, GigapagePte, IsLeaf;
    var e := EntryAt(root, Vpn(va, 2));
    GigapagePteIsLeaf(pa);
    if Passes(mem, root, q, LEVELS - 1, e) {
      WalkMeets(mem, e, GigapagePte(pa), root, q, LEVELS - 1);
    } else {
      WalkAvoids(mem, e, GigapagePte(pa), root, q, LEVELS - 1);
    }
  }

  // No entry on the walk's way points back to the root.
  predicate NoWayBack(mem: Memory, root: Word, table: Word, q: Word, level: nat)
    requires level < LEVELS
    decreases level
  {
    var at := EntryAt(table, Vpn(q, level));
    at in mem && IsValid(mem[at]) && !IsLeaf(mem[at]) && level > 0 ==>
      PteToPhys(mem[at]) != root && NoWayBack(mem, root, PteToPhys(mem[at]), q, level - 1)
  }

  lemma EntriesApart(t: Word, u: Word, i: Word, j: Word)
    requires t & 0xFFF == 0 && u & 0xFFF == 0 && i < 512 && j < 512 && (t != u || i != j)
    ensures EntryAt(t, i) != EntryAt(u, j)
  {
  }

  lemma VpnSmall(va: Word, level: nat)
    requires level < LEVELS
    ensures Vpn(va, level) < 512
  {
  }

  lemma TablesAligned(pte: Word)
    ensures PteToPhys(pte) & 0xFFF == 0
  {
  }

  // Such a walk reads one entry of the root only.
  lemma {:induction false} OneRootEntry(mem: Memory, root: Word, index: Word, table: Word, q: Word, level: nat)
    requires level < LEVELS && root & 0xFFF == 0 && table & 0xFFF == 0 && index < 512
    requires NoWayBack(mem, root, table, q, level) && (table != root || Vpn(q, level) != index)
    ensures !Passes(mem, table, q, level, EntryAt(root, index))
    decreases level
  {
    hide Vpn, EntryAt, PteToPhys, IsLeaf, IsValid;
    VpnSmall(q, level);
    EntriesApart(root, table, index, Vpn(q, level));
    var at := EntryAt(table, Vpn(q, level));
    if at in mem && IsValid(mem[at]) && !IsLeaf(mem[at]) && level > 0 {
      TablesAligned(mem[at]);
      OneRootEntry(mem, root, index, PteToPhys(mem[at]), q, level - 1);
    }
  }

  // All other walks are unchanged when they do not come back to the root.
  lemma OtherWalksUnchanged(mem: Memory, root: Word, pa: Word, va: Word, q: Word)
    requires Vpn(q, 2) != Vpn(va, 2) && root & 0xFFF == 0 && NoWayBack(mem, root, root, q, LEVELS - 1)
    ensures Walk(Mapped(mem, root, pa, va), root, q) == Walk(mem, root, q)
  {
    hide Vpn, EntryAt, WalkFrom, GigapagePte, NoWayBack, Passes, IsLeaf;
    VpnSmall(va, 2);
    OneRootEntry(mem, root, Vpn(va, 2), root, q, LEVELS - 1);
    WalkUnchangedIff(mem, root, pa, va, q);
  }

  // Both boot mappings together: addresses of neither gigabyte are walked as before.
  lemma BootKeepsOthers(mem: Memory, root: Word, bootStart: Word, q: Word)
    requires InRam(bootStart) && Vpn(q, 2) != 2 && Vpn(q, 2) != 510
    requires root & 0xFFF == 0 && NoWayBack(mem, root, root, q, LEVELS - 1)
    ensures Walk(Mapped(Mapped(mem, root, bootStart, bootStart), root, bootStart, High(bootStart)), root, q) ==
            Walk(mem, root, q)
  {
    hide Vpn, EntryAt, WalkFrom, GigapagePte, NoWayBack, Passes, IsLeaf, InRam, High;
    BootIndices(bootStart);
    OneRootEntry(mem, root, 2, root, q, LEVELS - 1);
    OneRootEntry(mem, root, 510, root, q, LEVELS - 1);
    var m1 := Mapped(mem, root, bootStart, bootStart);
    WalkAvoids(mem, EntryAt(root, 2), GigapagePte(bootStart), root, q, LEVELS - 1);
    WalkAvoids(m1, EntryAt(root, 510), GigapagePte(bootStart), root, q, LEVELS - 1);
  }

  // A canonical address that the walk and the architecture both find in the same gigapage
  // entry, valid, readable, writable and executable, and that translates to p.
  predicate Reaches(mem: Memory, root: Word, q: Word, p: Word) {
    var f := Walk(mem, root, q);
    f.Leaf? && f.level == 2 && Translate(mem, root, q) == Entry(f.at, 2) && mem[f.at] & 0x3FF == 0xF
    && Physical(mem[f.at], q, 2) == p
  }

  // After boot, both mappings hold together, whatever the root table held: each q of the
  // identity gigabyte reaches q, and each q of the high gigabyte its physical alias.
  lemma BootMappingsHold(mem: Memory, root: Word, bootStart: Word, q: Word)
    requires InRam(bootStart) && InRam(q)
    ensures var m := Mapped(Mapped(mem, root, bootStart, bootStart), root, bootStart, High(bootStart));
            Reaches(m, root, q, q) && Reaches(m, root, High(q), q) && High(q) == 0xFFFF_FFFF_0000_0000 + q
  {
    hide Vpn, EntryAt, GigapagePte, Reaches, High, InRam, Mapped;
    var m1 := Mapped(mem, root, bootStart, bootStart);
    var m2 := Mapped(mem, root, bootStart, High(bootStart));
    BootIndices(bootStart);
    BootIndices(q);
    HighMeans(q);
    MapsCommute(mem, root, bootStart);
    MappedReaches(m2, root, bootStart, bootStart, q, q);
    MappedReaches(m1, root, bootStart, High(bootStart), High(q), q);
  }

  lemma HighMeans(p: Word)
    ensures High(p) == 0xFFFF_FFFF_0000_0000 + p
  {
  }

  // The gigabyte of RAM the kernel is loaded to.
  predicate InRam(p: Word) {
    0x8000_0000 <= p < 0xC000_0000
  }

  lemma MappedReaches(mem: Memory, root: Word, pa: Word, va: Word, q: Word, p: Word)
    requires Vpn(q, 2) == Vpn(va, 2) && InRam(pa) && InRam(p) && (q == p || q == High(p))
    ensures Reaches(Mapped(mem, root, pa, va), root, q, p)
  {
    hide Vpn, EntryAt, GigapagePte, Walk, Translate, InRam, High, Canonical, Physical;
    ReadOverWrite(mem, root, pa, va, q);
    GigabytePhysical(pa, q);
    RamAddress(pa, p);
  }

  lemma RamCanonical(p: Word)
    requires InRam(p)
    ensures Canonical(p) && FitsPhysical(p)
  {
  }

  lemma HighCanonical(p: Word)
    requires InRam(p)
    ensures Canonical(High(p))
  {
  }

  lemma RamGigabyte(pa: Word, p: Word)
    requires InRam(pa) && InRam(p)
    ensures SameGigabyte(pa, p) == p
  {
  }

  lemma HighOffset(p: Word)
    ensures LowBits(High(p)) == LowBits(p)
  {
  }

  lemma RamAddress(pa: Word, p: Word)
    requires InRam(pa) && InRam(p)
    ensures Canonical(p) && Canonical(High(p)) && FitsPhysical(pa)
    ensures SameGigabyte(pa, p) == p && SameGigabyte(pa, High(p)) == p
  {
    hide Canonical, FitsPhysical, LowBits, Upper, Or, High, InRam;
    RamCanonical(p);
    RamCanonical(pa);
    HighCanonical(p);
    RamGigabyte(pa, p);
    HighOffset(p);
  }

  lemma MapsCommute(mem: Memory, root: Word, bootStart: Word)
    requires InRam(bootStart)
    ensures Mapped(Mapped(mem, root, bootStart, bootStart), root, bootStart, High(bootStart)) ==
            Mapped(Mapped(mem, root, bootStart, High(bootStart)), root, bootStart, bootStart)
  {
    hide Vpn, EntryAt, GigapagePte, InRam, High;
    BootIndices(bootStart);
    IndicesApart(root);
  }

  lemma IndicesApart(root: Word)
    ensures EntryAt(root, 2) != EntryAt(root, 510)
  {
  }

  lemma BootIndices(p: Word)
    requires InRam(p)
    ensures Vpn(p, 2) == 2 && Vpn(High(p), 2) == 510
  {
  }
}
