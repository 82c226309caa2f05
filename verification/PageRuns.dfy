// Ownership, accounting and order over whole runs of the page allocator.
module PageRuns {
  import opened Words
  import opened PageBitmap

  // ---- Reservations ----

  // A reservation that stays inside the bitmap.
  predicate InBitmap(bm: Bitmap, first: nat, pages: nat) {
    pages == 0 || first + pages <= BITS * |bm|
  }

  function ReserveBits(bm: Bitmap, first: nat, pages: nat): (r: Bitmap)
    requires InBitmap(bm, first, pages)
    ensures |r| == |bm|
    decreases pages
  {
    if pages == 0 then bm else ReserveBits(SetBit(bm, first), first + 1, pages - 1)
  }

  function Region(first: nat, pages: nat): (s: set<nat>)
    ensures forall i :: i in s <==> first <= i < first + pages
    decreases pages
  {
    if pages == 0 then {} else Region(first, pages - 1) + {first + pages - 1}
  }

  lemma {:induction false} RegionSize(first: nat, pages: nat)
    ensures |Region(first, pages)| == pages
    decreases pages
  {
    if pages > 0 { RegionSize(first, pages - 1); }
  }

  // Exactly the bits of the region are set on top of those that were.
  lemma {:induction false} ReserveSets(bm: Bitmap, first: nat, pages: nat, j: nat)
    requires InBitmap(bm, first, pages) && j < BITS * |bm|
    ensures IsSet(ReserveBits(bm, first, pages), j) <==> IsSet(bm, j) || first <= j < first + pages
    decreases pages
  {
    hide IsSet, SetBit;
    if pages > 0 {
      SetBitSets(bm, first, j);
      ReserveSets(SetBit(bm, first), first + 1, pages - 1, j);
    }
  }

  lemma ClearAfterReserve(bm: Bitmap, first: nat, pages: nat)
    requires InBitmap(bm, first, pages)
    ensures Clear(ReserveBits(bm, first, pages)) == Clear(bm) - Region(first, pages)
  {
    hide IsSet, ReserveBits, Region;
    var r := ReserveBits(bm, first, pages);
    forall j | 0 <= j < BITS * |bm| ensures IsSet(r, j) <==> IsSet(bm, j) || j in Region(first, pages) {
      ReserveSets(bm, first, pages, j);
    }
  }

  // ---- Runs ----

  // The bitmap, free_pages, and who owns what.
  datatype Pages = Pages(bm: Bitmap, free: nat, held: set<nat>, reserved: set<nat>)

  datatype Op = Reserve(first: nat, pages: nat) | Allocate | Release(page: nat)

  // Line 106 of kpalloc.c as it stands, or with the bit its comment names.
  datatype Variant = AsWritten | Intended

  function TakeBy(bm: Bitmap, v: Variant): (r: (Bitmap, Option<nat>))
    ensures |r.0| == |bm|
  {
    match v case AsWritten => TakeLiteral(bm) case Intended => Take(bm)
  }

  // Reservations stay inside the bitmap, and only held pages are freed.
  predicate Legal(op: Op, s: Pages) {
    match op
    case Reserve(first, pages) => InBitmap(s.bm, first, pages)
    case Allocate => true
    case Release(page) => page in s.held && page < BITS * |s.bm|
  }

  // A held page that a reservation covers stays with its holder.
  function Next(op: Op, s: Pages, v: Variant): (s': Pages)
    requires Legal(op, s)
    ensures |s'.bm| == |s.bm|
  {
    match op
    case Reserve(first, pages) =>
      Pages(ReserveBits(s.bm, first, pages), s.free, s.held, s.reserved + (Region(first, pages) - s.held))
    case Allocate =>
      var r := TakeBy(s.bm, v);
      (match r.1
       case None => s
       case Some(i) => Pages(r.0, Wrap64(s.free - 1), s.held + {i}, s.reserved))
    case Release(page) =>
      Pages(UnsetBit(s.bm, page), Wrap64(s.free + 1), s.held - {page}, s.reserved)
  }

  function All(bm: Bitmap): (r: set<nat>) {
    Region(0, BITS * |bm|)
  }

  // The set bits are the held pages and the reserved pages, and no page is both.
  predicate Owned(s: Pages) {
    s.held !! s.reserved && s.held + s.reserved == All(s.bm) - Clear(s.bm)
  }

  predicate LegalRun(ops: seq<Op>, s: Pages, v: Variant) {
    ops == [] || (Legal(ops[0], s) && LegalRun(ops[1..], Next(ops[0], s, v), v))
  }

  // Every state of the run is owned, and every page handed out was free.
  predicate OwnedThroughout(ops: seq<Op>, s: Pages, v: Variant)
    requires LegalRun(ops, s, v)
  {
    && Owned(s)
    && (ops == [] ||
        (&& (ops[0].Allocate? && TakeBy(s.bm, v).1.Some? ==> TakeBy(s.bm, v).1.value !in s.held + s.reserved)
         && OwnedThroughout(ops[1..], Next(ops[0], s, v), v)))
  }

  predicate SoundThroughout(ops: seq<Op>, s: Pages)
    requires LegalRun(ops, s, AsWritten)
  {
    ops == [] || ((ops[0].Allocate? ==> Sound(s.bm)) && SoundThroughout(ops[1..], Next(ops[0], s, AsWritten)))
  }

  lemma TakeOwned(s: Pages)
    requires Owned(s)
    ensures Owned(Next(Allocate, s, Intended))
    ensures Take(s.bm).1.Some? ==> Take(s.bm).1.value in Clear(s.bm) && Take(s.bm).1.value !in s.held + s.reserved
  {
    hide IsSet, SetBit;
    var c := FirstFit(s.bm, 0);
    if c.Some? {
      ClearAfterSet(s.bm, c.value);
      assert c.value in Clear(s.bm);
    }
  }

  lemma StepOwned(op: Op, s: Pages)
    requires Legal(op, s) && Owned(s)
    ensures Owned(Next(op, s, Intended))
  {
    hide Clear, IsSet, UnsetBit, ReserveBits;
    match op
    case Reserve(first, pages) => ClearAfterReserve(s.bm, first, pages);
    case Allocate => TakeOwned(s);
    case Release(page) => ClearAfterUnset(s.bm, page);
  }

  // With the intended bit, ownership holds over every run.
  lemma {:induction false} RunOwned(ops: seq<Op>, s: Pages)
    requires LegalRun(ops, s, Intended) && Owned(s)
    ensures OwnedThroughout(ops, s, Intended)
  {
    hide Legal, Next, Owned, Take;
    if ops != [] {
      StepOwned(ops[0], s);
      if ops[0].Allocate? { TakeOwned(s); }
      RunOwned(ops[1..], Next(ops[0], s, Intended));
    }
  }

  // As written, one allocation keeps ownership exactly when the bitmap is sound.
  lemma StepOwnedIff(op: Op, s: Pages)
    requires Legal(op, s) && Owned(s)
    ensures Owned(Next(op, s, AsWritten)) <==> (op.Allocate? ==> Sound(s.bm))
    ensures op.Allocate? && TakeLiteral(s.bm).1.Some? ==> TakeLiteral(s.bm).1.value !in s.held + s.reserved
  {
    hide Clear, IsSet, Take, TakeLiteral, Sound, UnsetBit, ReserveBits;
    StepOwned(op, s);
    if op.Allocate? {
      LiteralIff(s.bm);
      TakeOwned(s);
      if !Sound(s.bm) { UnsoundTakes(s.bm); }
    }
  }

  lemma UnsoundTakes(bm: Bitmap)
    requires !Sound(bm)
    ensures TakeLiteral(bm).1.Some? && TakeLiteral(bm).1.value in All(bm)
  {
    LiteralIff(bm);
  }

  // Over whole runs of the code as written: ownership holds throughout exactly when each
  // allocation finds entry 0, or an entry with a bit set, as its first entry with room.
  lemma {:induction false} RunOwnedIff(ops: seq<Op>, s: Pages)
    requires LegalRun(ops, s, AsWritten) && Owned(s)
    ensures OwnedThroughout(ops, s, AsWritten) <==> SoundThroughout(ops, s)
  {
    hide Legal, Next, Owned, TakeLiteral, Sound;
    if ops != [] {
      StepOwnedIff(ops[0], s);
      if Owned(Next(ops[0], s, AsWritten)) {
        RunOwnedIff(ops[1..], Next(ops[0], s, AsWritten));
      } else {
        NotOwnedNow(ops[1..], Next(ops[0], s, AsWritten));
      }
    }
  }

  lemma NotOwnedNow(ops: seq<Op>, s: Pages)
    requires LegalRun(ops, s, AsWritten) && !Owned(s)
    ensures !OwnedThroughout(ops, s, AsWritten)
  {
  }

  lemma {:induction false} ReserveElsewhere(bm: Bitmap, first: nat, pages: nat, k: nat)
    requires InBitmap(bm, first, pages) && k < |bm| && first + pages <= BITS * k
    ensures ReserveBits(bm, first, pages)[k] == bm[k]
    decreases pages
  {
    hide Or, Mask;
    if pages > 0 { ReserveElsewhere(SetBit(bm, first), first + 1, pages - 1, k); }
  }

  lemma ReserveEntry(bm: Bitmap)
    requires |bm| == 2
    ensures ReserveBits(bm, 0, BITS) == [FULL, bm[1]]
  {
    hide IsSet, ReserveBits, InWord;
    var r := ReserveBits(bm, 0, BITS);
    ReserveElsewhere(bm, 0, BITS, 1);
    if r[0] != FULL {
      var i := TrailingOnes(r[0]);
      BitOfEntry(r, 0, i);
      ReserveSets(bm, 0, BITS, i);
    }
  }

  // Two allocations in a row from a full and an empty entry.
  lemma TakesTwice(s: Pages)
    requires s.bm == [FULL, 0]
    ensures LegalRun([Allocate, Allocate], s, AsWritten) && !OwnedThroughout([Allocate, Allocate], s, AsWritten)
    ensures var s' := Next(Allocate, s, AsWritten); s'.bm == s.bm && s'.held == s.held + {64}
  {
    hide Owned, TakeLiteral;
    TakesAgain(s);
    var s' := Next(Allocate, s, AsWritten);
    assert [Allocate, Allocate][1..] == [Allocate] && [Allocate][1..] == [];
    assert LegalRun([Allocate], s', AsWritten);
    assert 64 in s'.held + s'.reserved;
    assert !OwnedThroughout([Allocate], s', AsWritten);
  }

  // A machine with 128 pages of memory, 64 of them reserved: the next two allocations return the
  // same page, so a page goes out that is held, and its bit stays clear.
  lemma SamePageTwice()
    ensures var ops, s0 := [Reserve(0, 64), Allocate, Allocate], Initial(128 * PAGE);
            LegalRun(ops, s0, AsWritten) && Owned(s0) && !OwnedThroughout(ops, s0, AsWritten)
    ensures var s1 := Next(Reserve(0, 64), Initial(128 * PAGE), AsWritten);
            var s2 := Next(Allocate, s1, AsWritten);
            && TakeLiteral(s1.bm).1 == Some(64) == TakeLiteral(s2.bm).1
            && s2.held == {64} && !IsSet(s2.bm, 64)
  {
    hide ReserveBits, IsSet, Owned, TakeLiteral, OwnedThroughout;
    var s0 := Initial(128 * PAGE);
    InitialOwned(128 * PAGE);
    assert s0.bm == [0, 0];
    ReserveEntry(s0.bm);
    var s1 := Next(Reserve(0, 64), s0, AsWritten);
    TakesTwice(s1);
    TakesAgain(s1);
    var ops := [Reserve(0, 64), Allocate, Allocate];
    assert ops[1..] == [Allocate, Allocate];
    NotOwnedLater(ops, s0);
    ZeroBit(s1.bm, 64);
  }

  lemma NotOwnedLater(ops: seq<Op>, s: Pages)
    requires ops != [] && LegalRun(ops, s, AsWritten)
    requires !OwnedThroughout(ops[1..], Next(ops[0], s, AsWritten), AsWritten)
    ensures !OwnedThroughout(ops, s, AsWritten)
  {
  }

  lemma TakesAgain(s: Pages)
    requires s.bm == [FULL, 0]
    ensures TakeLiteral(s.bm) == (s.bm, Some(64))
  {
    assert s.bm[1..] == [0] && FirstOpen([0]) == 0;
    SetAgain(s.bm);
  }

  // ---- Accounting ----

  // free_pages is the clear bits, the bits set by reservations, and the pages of the last,
  // incomplete entry, which no bit stands for.
  predicate Balanced(s: Pages, tail: nat) {
    s.free == |Clear(s.bm)| + |s.reserved| + tail && BITS * |s.bm| + tail < WORD64
  }

  lemma Counts(s: Pages)
    requires Owned(s)
    ensures |Clear(s.bm)| + |s.reserved| + |s.held| == BITS * |s.bm|
  {
    hide IsSet;
    RegionSize(0, BITS * |s.bm|);
    assert Clear(s.bm) <= All(s.bm);
    assert All(s.bm) == Clear(s.bm) + (s.held + s.reserved);
    assert Clear(s.bm) !! (s.held + s.reserved);
  }

  // For an owned state: every page that is not held is counted.
  lemma BalancedForm(s: Pages, tail: nat)
    requires Owned(s)
    ensures Balanced(s, tail) <==> s.free + |s.held| == BITS * |s.bm| + tail < WORD64
  {
    hide Owned, Clear;
    Counts(s);
  }

  lemma StepBalanced(op: Op, s: Pages, tail: nat)
    requires Legal(op, s) && Owned(s) && Balanced(s, tail)
    ensures Balanced(Next(op, s, Intended), tail)
  {
    hide Balanced, Owned;
    StepOwned(op, s);
    BalancedForm(s, tail);
    BalancedForm(Next(op, s, Intended), tail);
    if op.Allocate? && Take(s.bm).1.Some? {
      TakeOwned(s);
      FreeIsPositive(s, tail);
    }
    HeldMoves(op, s, tail);
  }

  // free_pages and the number of held pages move in opposite directions.
  lemma HeldMoves(op: Op, s: Pages, tail: nat)
    requires Legal(op, s) && s.free + |s.held| == BITS * |s.bm| + tail < WORD64
    requires op.Allocate? && Take(s.bm).1.Some? ==> s.free > 0 && Take(s.bm).1.value !in s.held
    ensures var s' := Next(op, s, Intended); s'.free + |s'.held| == BITS * |s.bm| + tail
  {
    hide Take, UnsetBit, ReserveBits, Region;
    match op
    case Reserve(_, _) =>
    case Allocate => if Take(s.bm).1.Some? { assert Wrap64(s.free - 1) == s.free - 1; }
    case Release(page) =>
      assert |s.held - {page}| == |s.held| - 1;
      assert Wrap64(s.free + 1) == s.free + 1;
  }

  lemma FreeIsPositive(s: Pages, tail: nat)
    requires Owned(s) && Balanced(s, tail) && Take(s.bm).1.Some?
    ensures 0 < s.free < WORD64
  {
    hide Owned;
    BalancedForm(s, tail);
    TakeOwned(s);
    assert Clear(s.bm) != {};
  }

  predicate BalancedThroughout(ops: seq<Op>, s: Pages, tail: nat, v: Variant)
    requires LegalRun(ops, s, v)
  {
    Balanced(s, tail) && (ops == [] || BalancedThroughout(ops[1..], Next(ops[0], s, v), tail, v))
  }

  // Conservation over every run, with the intended bit.
  lemma {:induction false} RunBalanced(ops: seq<Op>, s: Pages, tail: nat)
    requires LegalRun(ops, s, Intended) && Owned(s) && Balanced(s, tail)
    ensures BalancedThroughout(ops, s, tail, Intended)
  {
    hide Legal, Next, Owned, Balanced;
    if ops != [] {
      StepOwned(ops[0], s);
      StepBalanced(ops[0], s, tail);
      RunBalanced(ops[1..], Next(ops[0], s, Intended), tail);
    }
  }

  // As written, free_pages drifts from the clear bits with the first unsound allocation.
  lemma StepBalancedIff(op: Op, s: Pages, tail: nat)
    requires Legal(op, s) && Owned(s) && Balanced(s, tail)
    ensures Balanced(Next(op, s, AsWritten), tail) <==> (op.Allocate? ==> Sound(s.bm))
  {
    hide Clear, Sound, Take, TakeLiteral, UnsetBit, ReserveBits, Owned;
    StepBalanced(op, s, tail);
    LiteralIff(s.bm);
    if op.Allocate? && !Sound(s.bm) {
      UnsoundTakes(s.bm);
      FreeIsPositive(s, tail);
      assert Wrap64(s.free - 1) == s.free - 1;
    }
  }

  // Conservation over runs of the code as written, under the same condition as ownership.
  lemma {:induction false} RunBalancedIff(ops: seq<Op>, s: Pages, tail: nat)
    requires LegalRun(ops, s, AsWritten) && Owned(s) && Balanced(s, tail)
    ensures BalancedThroughout(ops, s, tail, AsWritten) <==> SoundThroughout(ops, s)
  {
    hide Legal, Next, Owned, Balanced, Sound;
    if ops != [] {
      var s' := Next(ops[0], s, AsWritten);
      StepOwnedIff(ops[0], s);
      StepBalancedIff(ops[0], s, tail);
      if Balanced(s', tail) { RunBalancedIff(ops[1..], s', tail); } else { NotBalancedNow(ops[1..], s', tail); }
    }
  }

  lemma NotBalancedNow(ops: seq<Op>, s: Pages, tail: nat)
    requires LegalRun(ops, s, AsWritten) && !Balanced(s, tail)
    ensures !BalancedThroughout(ops, s, tail, AsWritten)
  {
  }

  // Freeing the page just allocated puts everything back.
  lemma ReleaseUndoesAllocate(s: Pages, tail: nat)
    requires Owned(s) && Balanced(s, tail) && Take(s.bm).1.Some?
    ensures var s' := Next(Allocate, s, Intended);
            Legal(Release(Take(s.bm).1.value), s') && Next(Release(Take(s.bm).1.value), s', Intended) == s
  {
    hide Owned, IsSet, SetBit, UnsetBit;
    TakeOwned(s);
    FreeIsPositive(s, tail);
    UnsetUndoesSet(s.bm, Take(s.bm).1.value);
    assert Wrap64(s.free - 1) == s.free - 1;
    assert s.held + {Take(s.bm).1.value} - {Take(s.bm).1.value} == s.held;
  }

  // The state after initialisation with zeroed heap memory.
  function Initial(memorySize: nat): (r: Pages) {
    Pages(seq(memorySize / PAGE / BITS, i => 0), memorySize / PAGE, {}, {})
  }

  lemma InitialOwned(memorySize: nat)
    requires memorySize < WORD64
    ensures Owned(Initial(memorySize)) && Balanced(Initial(memorySize), memorySize / 4096 % 64)
    ensures var p := Initial(memorySize);
            p.free == memorySize / 4096 && |p.bm| == memorySize / 4096 / 64 && Clear(p.bm) == All(p.bm)
  {
    hide IsSet;
    var s := Initial(memorySize);
    forall i | 0 <= i < BITS * |s.bm| ensures !IsSet(s.bm, i) { ZeroBit(s.bm, i); }
    assert Clear(s.bm) == All(s.bm);
    RegionSize(0, BITS * |s.bm|);
    SplitBit(memorySize / PAGE);
  }

  lemma ZeroBit(bm: Bitmap, i: nat)
    requires i < BITS * |bm| && bm[i / BITS] == 0
    ensures !IsSet(bm, i)
  {
    hide InWord;
    WordEnds(i % BITS);
  }

  // ---- Draining ----

  // The clear pages in increasing order.
  function Clears(bm: Bitmap, from: nat): (s: seq<nat>)
    decreases BITS * |bm| - from
  {
    if from >= BITS * |bm| then []
    else if IsSet(bm, from) then Clears(bm, from + 1)
    else [from] + Clears(bm, from + 1)
  }

  lemma {:induction false} ClearsMembers(bm: Bitmap, from: nat, p: nat)
    ensures p in Clears(bm, from) <==> from <= p < BITS * |bm| && !IsSet(bm, p)
    decreases BITS * |bm| - from
  {
    hide IsSet;
    if from < BITS * |bm| { ClearsMembers(bm, from + 1, p); }
  }

  predicate Ascending(s: seq<nat>) {
    forall i, j | 0 <= i < j < |s| :: s[i] < s[j]
  }

  lemma {:induction false} ClearsSorted(bm: Bitmap, from: nat)
    ensures Ascending(Clears(bm, from))
    decreases BITS * |bm| - from
  {
    hide IsSet;
    if from < BITS * |bm| {
      ClearsSorted(bm, from + 1);
      var rest := Clears(bm, from + 1);
      forall j | 0 <= j < |rest| ensures from < rest[j] {
        assert rest[j] in rest;
        ClearsMembers(bm, from + 1, rest[j]);
      }
    }
  }

  // Strictly increasing, and exactly the clear bits.
  lemma ClearsMeaning(bm: Bitmap)
    ensures Ascending(Clears(bm, 0))
    ensures forall p: nat :: p in Clears(bm, 0) <==> p in Clear(bm)
  {
    hide IsSet, Clears;
    ClearsSorted(bm, 0);
    forall p: nat ensures p in Clears(bm, 0) <==> p in Clear(bm) { ClearsMembers(bm, 0, p); }
  }

  // What n allocations in a row return.
  function Drain(bm: Bitmap, n: nat, v: Variant): (pages: seq<Option<nat>>)
    ensures |pages| == n
    decreases n
  {
    if n == 0 then []
    else var r := TakeBy(bm, v); [r.1] + Drain(r.0, n - 1, v)
  }

  function Somes(s: seq<nat>): (r: seq<Option<nat>>)
    ensures |r| == |s|
  {
    seq(|s|, i requires 0 <= i < |s| => Some(s[i]))
  }

  lemma {:induction false} ClearsFrom(bm: Bitmap, from: nat)
    ensures match FirstFit(bm, from)
            case None => Clears(bm, from) == []
            case Some(c) => Clears(bm, from) == [c] + Clears(bm, c + 1)
    decreases BITS * |bm| - from
  {
    hide IsSet;
    if from < BITS * |bm| && IsSet(bm, from) { ClearsFrom(bm, from + 1); }
  }

  lemma {:induction false} ClearsAfter(bm: Bitmap, c: nat, from: nat)
    requires c < from && c < BITS * |bm|
    ensures Clears(SetBit(bm, c), from) == Clears(bm, from)
    decreases BITS * |bm| - from
  {
    hide IsSet, SetBit;
    if from < BITS * |bm| {
      SetBitSets(bm, c, from);
      ClearsAfter(bm, c, from + 1);
    }
  }

  lemma {:induction false} ClearsUpTo(bm: Bitmap, from: nat, c: nat)
    requires from <= c < BITS * |bm| && FirstFit(bm, from) == Some(c)
    ensures Clears(SetBit(bm, c), from) == Clears(bm, c + 1)
    decreases c - from
  {
    hide IsSet, SetBit;
    SetBitSets(bm, c, from);
    if from < c { ClearsUpTo(bm, from + 1, c); } else { ClearsAfter(bm, c, c + 1); }
  }

  lemma TakeFirstClear(bm: Bitmap)
    ensures match Take(bm).1
            case None => Clears(bm, 0) == []
            case Some(c) => Clears(bm, 0) == [c] + Clears(Take(bm).0, 0)
  {
    hide IsSet, SetBit, Clears;
    ClearsFrom(bm, 0);
    var c := FirstFit(bm, 0);
    if c.Some? { ClearsUpTo(bm, 0, c.value); }
  }

  // From any bitmap, allocations return exactly the clear pages in increasing order, then nothing.
  lemma {:induction false} DrainsInOrder(bm: Bitmap)
    ensures Drain(bm, |Clears(bm, 0)| + 1, Intended) == Somes(Clears(bm, 0)) + [None]
    decreases |Clears(bm, 0)|
  {
    hide Clears, Take;
    TakeFirstClear(bm);
    var n := |Clears(bm, 0)|;
    var r := Take(bm);
    if r.1.None? {
      assert Drain(bm, 1, Intended) == [None] + Drain(r.0, 0, Intended);
      assert Drain(r.0, 0, Intended) == [] && Somes(Clears(bm, 0)) == [];
    } else {
      DrainsInOrder(r.0);
      var rest := Clears(r.0, 0);
      assert Somes(Clears(bm, 0)) == [r.1] + Somes(rest);
    }
  }

  // No entry but entry 0 is empty.
  predicate NoEmptyEntry(bm: Bitmap) {
    forall k | 1 <= k < |bm| :: bm[k] != 0
  }

  // Setting a bit leaves no entry empty that was not.
  lemma SetKeepsNonEmpty(bm: Bitmap, i: nat)
    requires i < BITS * |bm| && NoEmptyEntry(bm)
    ensures NoEmptyEntry(SetBit(bm, i))
  {
    hide Mask, Or;
    if i / BITS >= 1 { OrNonZero(bm[i / BITS], Mask(i % BITS)); }
  }

  lemma OrNonZero(w: Word, m: Word)
    requires w != 0
    ensures Or(w, m) != 0
  {
  }

  lemma {:induction false} DrainNonEmpty(bm: Bitmap, n: nat)
    requires NoEmptyEntry(bm)
    ensures Drain(bm, n, AsWritten) == Drain(bm, n, Intended)
    decreases n
  {
    hide SetBit, IsSet, TakeLiteral;
    if n > 0 {
      LiteralIff(bm);
      if Take(bm).1.Some? { SetKeepsNonEmpty(bm, Take(bm).1.value); }
      DrainNonEmpty(Take(bm).0, n - 1);
    }
  }

  // An empty entry is met before the clear pages run out, and then its first page is
  // handed out again and again.
  lemma {:induction false} DrainStuck(bm: Bitmap, k: nat)
    requires 1 <= k < |bm| && bm[k] == 0
    ensures Drain(bm, |Clears(bm, 0)|, AsWritten) != Somes(Clears(bm, 0))
    decreases |Clears(bm, 0)|
  {
    hide Clears, TakeLiteral, Take, Sound, SetBit, IsSet;
    LiteralIff(bm);
    TakeFirstClear(bm);
    EmptyEntryClears(bm, k);
    var cs := Clears(bm, 0);
    var n := |cs|;
    var r := TakeLiteral(bm);
    assert Drain(bm, n, AsWritten) == [r.1] + Drain(r.0, n - 1, AsWritten);
    if Sound(bm) {
      EmptyStays(bm, k);
      DrainStuck(r.0, k);
      var rest := Clears(r.0, 0);
      assert Somes(cs)[1..] == Somes(rest);
      assert Drain(bm, n, AsWritten)[1..] == Drain(r.0, n - 1, AsWritten);
    } else {
      ClearsAscend(bm);
      assert Drain(bm, n - 1, AsWritten)[0] == r.1;
      assert Drain(bm, n, AsWritten)[1] == Some(cs[0]);
      assert Somes(cs)[1] == Some(cs[1]);
    }
  }

  lemma ClearsAscend(bm: Bitmap)
    requires |Clears(bm, 0)| >= 2
    ensures Clears(bm, 0)[0] < Clears(bm, 0)[1]
  {
    ClearsSorted(bm, 0);
  }

  lemma EmptyEntryClears(bm: Bitmap, k: nat)
    requires k < |bm| && bm[k] == 0
    ensures |Clears(bm, 0)| >= 2 && FirstFit(bm, 0).Some?
  {
    hide InWord, IsSet;
    WordEnds(0);
    WordEnds(1);
    BitOfEntry(bm, k, 0);
    BitOfEntry(bm, k, 1);
    var s := Clears(bm, 0);
    ClearsMembers(bm, 0, BITS * k);
    ClearsMembers(bm, 0, BITS * k + 1);
    assert s[0] != s[|s| - 1] || |s| != 1;
  }

  // A sound allocation does not touch an empty entry other than entry 0.
  lemma EmptyStays(bm: Bitmap, k: nat)
    requires Sound(bm) && 1 <= k < |bm| && bm[k] == 0
    ensures TakeLiteral(bm).0[k] == 0
  {
    hide Or, Mask;
    var o := FirstOpen(bm);
    if o < |bm| && bm[o] != 0 { JoinBit(o, TrailingOnes(bm[o])); }
  }

  // The code as written drains the bitmap correctly exactly when no entry past the first
  // starts out empty.
  lemma DrainsInOrderIff(bm: Bitmap)
    ensures Drain(bm, |Clears(bm, 0)|, AsWritten) == Somes(Clears(bm, 0)) <==> NoEmptyEntry(bm)
  {
    hide Clears, NoEmptyEntry;
    if NoEmptyEntry(bm) {
      DrainNonEmpty(bm, |Clears(bm, 0)|);
      DrainsInOrder(bm);
      DrainPrefix(bm, |Clears(bm, 0)|);
    } else {
      var k := EmptyEntry(bm);
      DrainStuck(bm, k);
    }
  }

  lemma EmptyEntry(bm: Bitmap) returns (k: nat)
    requires !NoEmptyEntry(bm)
    ensures 1 <= k < |bm| && bm[k] == 0
  {
    k :| 1 <= k < |bm| && bm[k] == 0;
  }

  lemma {:induction false} DrainPrefix(bm: Bitmap, n: nat)
    ensures Drain(bm, n + 1, Intended)[..n] == Drain(bm, n, Intended)
    decreases n
  {
    hide Take;
    if n > 0 { DrainPrefix(Take(bm).0, n - 1); }
  }
}
