// The page bitmap: 64-bit words, single bits, and the word-skipping scan (kernel/mm/phys/kpalloc.c).
module PageBitmap {
  import opened Words

  type Bitmap = seq<Word>

  const BITS: nat := 64
  const PAGE: nat := 4096
  const FULL: Word := 0xFFFF_FFFF_FFFF_FFFF

  // ---- Bits of one word ----

  // A bit number as a six-bit shift amount; PosBack says it is the same number.
  function Pos(i: nat): (r: bv6)
    requires i < 64
  {
    if i == 0 then 0 else Pos(i - 1) + 1
  }

  function One(p: bv6): (r: Word) {
    (1 as bv64) << p
  }

  // 1ULL << i; MaskIsShift says it is the one shift.
  function Mask(i: nat): (r: Word)
    requires i < BITS
  {
    if i == 0 then 1 else Mask(i - 1) << 1
  }

  predicate Meets(m: Word, w: Word) {
    (m & w) != 0
  }

  function Or(w: Word, m: Word): (r: Word) {
    w | m
  }

  function AndNot(w: Word, m: Word): (r: Word) {
    w & !m
  }

  predicate InWord(w: Word, i: nat)
    requires i < BITS
  {
    Meets(Mask(i), w)
  }

  lemma {:induction false} MaskIsShift(i: nat)
    requires i < BITS
    ensures Mask(i) == One(Pos(i))
  {
    if i > 0 {
      MaskIsShift(i - 1);
      PosBack(i - 1);
      ShiftAgain(Pos(i - 1));
    }
  }

  lemma ShiftAgain(p: bv6)
    requires p as nat < 63
    ensures One(p) << 1 == One(p + 1)
  {
  }

  lemma {:induction false} PosBack(i: nat)
    requires i < 64
    ensures Pos(i) as nat == i
  {
    if i > 0 {
      PosBack(i - 1);
      Increment(Pos(i - 1));
    }
  }

  lemma Increment(p: bv6)
    requires p as nat < 63
    ensures (p + 1) as nat == p as nat + 1
  {
  }

  lemma PosDistinct(i: nat, j: nat)
    requires i < 64 && j < 64 && i != j
    ensures Pos(i) != Pos(j)
  {
    hide Pos;
    PosBack(i);
    PosBack(j);
  }

  lemma OrShifts(w: Word, p: bv6, q: bv6)
    ensures ((((1 as bv64) << q) & (w | ((1 as bv64) << p))) != 0) == (p == q || (((1 as bv64) << q) & w) != 0)
  {
  }

  lemma OrWord(w: Word, p: bv6, q: bv6)
    ensures Meets(One(q), Or(w, One(p))) == (p == q || Meets(One(q), w))
  {
    OrShifts(w, p, q);
  }

  lemma ClearedBit(w: Word, p: bv6)
    ensures !Meets(One(p), AndNot(w, One(p)))
  {
  }

  lemma OtherBitStays(w: Word, p: bv6, q: bv6)
    requires p != q && Meets(One(q), w)
    ensures Meets(One(q), AndNot(w, One(p)))
  {
  }

  lemma NoBitAppears(w: Word, p: bv6, q: bv6)
    requires !Meets(One(q), w)
    ensures !Meets(One(q), AndNot(w, One(p)))
  {
  }

  lemma AndNotWord(w: Word, p: bv6, q: bv6)
    ensures Meets(One(q), AndNot(w, One(p))) == (p != q && Meets(One(q), w))
  {
    hide Meets, AndNot, One;
    if p == q { ClearedBit(w, p); }
    else if Meets(One(q), w) { OtherBitStays(w, p, q); }
    else { NoBitAppears(w, p, q); }
  }

  lemma FullWord(p: bv6)
    ensures Meets(One(p), FULL) && !Meets(One(p), 0)
  {
  }

  // Some bit at p or above is clear.
  predicate ClearAbove(w: Word, p: bv6) {
    (w | (One(p) - 1)) != FULL
  }

  lemma ClearAboveNext(w: Word, p: bv6)
    requires ClearAbove(w, p) && Meets(One(p), w)
    ensures p != 63 && ClearAbove(w, p + 1)
  {
  }

  lemma ClearSomewhere(w: Word)
    requires w != FULL
    ensures ClearAbove(w, 0)
  {
  }

  lemma NextClear(w: Word, i: nat)
    requires i < BITS && ClearAbove(w, Pos(i)) && InWord(w, i)
    ensures i + 1 < BITS && ClearAbove(w, Pos(i + 1))
  {
    hide One, ClearAbove, Meets;
    MaskIsShift(i);
    ClearAboveNext(w, Pos(i));
    PosBack(i);
  }

  // The least clear bit at or above i.
  function LeastClearInWord(w: Word, i: nat): (r: nat)
    requires i < BITS && ClearAbove(w, Pos(i))
    ensures i <= r < BITS && !InWord(w, r) && forall k | i <= k < r :: InWord(w, k)
    decreases BITS - i
  {
    if !InWord(w, i) then i
    else
      NextClear(w, i);
      LeastClearInWord(w, i + 1)
  }

  lemma ClearFromZero(w: Word)
    requires w != FULL
    ensures ClearAbove(w, Pos(0))
  {
    ClearSomewhere(w);
  }

  // __builtin_ctzl(~w)
  function TrailingOnes(w: Word): (r: nat)
    requires w != FULL
    ensures r < BITS && !InWord(w, r) && forall k | 0 <= k < r :: InWord(w, k)
  {
    ClearFromZero(w);
    LeastClearInWord(w, 0)
  }

  // ---- Bits of the bitmap ----

  predicate IsSet(bm: Bitmap, bit: nat)
    requires bit < BITS * |bm|
  {
    InWord(bm[bit / BITS], bit % BITS)
  }

  function SetBit(bm: Bitmap, bit: nat): (r: Bitmap)
    requires bit < BITS * |bm|
    ensures |r| == |bm|
  {
    bm[bit / BITS := Or(bm[bit / BITS], Mask(bit % BITS))]
  }

  function UnsetBit(bm: Bitmap, bit: nat): (r: Bitmap)
    requires bit < BITS * |bm|
    ensures |r| == |bm|
  {
    bm[bit / BITS := AndNot(bm[bit / BITS], Mask(bit % BITS))]
  }

  lemma SplitBit(i: nat)
    ensures i == BITS * (i / BITS) + i % BITS
  {
  }

  lemma JoinBit(k: nat, i: nat)
    requires i < BITS
    ensures (BITS * k + i) / BITS == k && (BITS * k + i) % BITS == i
  {
  }

  lemma OrMask(w: Word, i: nat, j: nat)
    requires i < BITS && j < BITS
    ensures InWord(Or(w, Mask(i)), j) <==> i == j || InWord(w, j)
  {
    hide One, Pos, Mask, Meets, Or, AndNot;
    MaskIsShift(i);
    MaskIsShift(j);
    OrWord(w, Pos(i), Pos(j));
    if i != j { PosDistinct(i, j); }
  }

  lemma AndNotMask(w: Word, i: nat, j: nat)
    requires i < BITS && j < BITS
    ensures InWord(AndNot(w, Mask(i)), j) <==> i != j && InWord(w, j)
  {
    hide One, Pos, Mask, Meets, Or, AndNot;
    MaskIsShift(i);
    MaskIsShift(j);
    AndNotWord(w, Pos(i), Pos(j));
    if i != j { PosDistinct(i, j); }
  }

  // Setting one bit sets that bit and no other.
  lemma SetBitSets(bm: Bitmap, i: nat, j: nat)
    requires i < BITS * |bm| && j < BITS * |bm|
    ensures IsSet(SetBit(bm, i), j) <==> i == j || IsSet(bm, j)
  {
    hide Mask, InWord, Or, AndNot;
    SplitBit(i);
    SplitBit(j);
    OrMask(bm[i / BITS], i % BITS, j % BITS);
  }

  lemma UnsetBitClears(bm: Bitmap, i: nat, j: nat)
    requires i < BITS * |bm| && j < BITS * |bm|
    ensures IsSet(UnsetBit(bm, i), j) <==> i != j && IsSet(bm, j)
  {
    hide Mask, InWord, Or, AndNot;
    SplitBit(i);
    SplitBit(j);
    AndNotMask(bm[i / BITS], i % BITS, j % BITS);
  }

  lemma ClearedAgain(w: Word, m: Word)
    requires !Meets(m, w)
    ensures AndNot(Or(w, m), m) == w
  {
  }

  // Clearing a bit just set restores the bitmap, when the bit was clear.
  lemma UnsetUndoesSet(bm: Bitmap, i: nat)
    requires i < BITS * |bm| && !IsSet(bm, i)
    ensures UnsetBit(SetBit(bm, i), i) == bm
  {
    hide Mask, Meets, Or, AndNot;
    ClearedAgain(bm[i / BITS], Mask(i % BITS));
  }

  lemma BitOfEntry(bm: Bitmap, k: nat, i: nat)
    requires k < |bm| && i < BITS
    ensures BITS * k + i < BITS * |bm|
    ensures IsSet(bm, (BITS * k + i) as nat) <==> InWord(bm[k], i)
  {
    hide InWord;
    JoinBit(k, i);
  }

  // ---- First fit ----

  // The reference: look at one bit at a time.
  function FirstFit(bm: Bitmap, from: nat): (r: Option<nat>)
    ensures r.Some? ==> from <= r.value < BITS * |bm| && !IsSet(bm, r.value)
    ensures r.Some? ==> forall k | from <= k < r.value :: IsSet(bm, k)
    ensures r.None? ==> forall k | from <= k < BITS * |bm| :: IsSet(bm, k)
    decreases BITS * |bm| - from
  {
    if from >= BITS * |bm| then None
    else if !IsSet(bm, from) then Some(from)
    else FirstFit(bm, from + 1)
  }

  // What the allocator computes: skip full words, then count trailing zeros.
  function Scan(bm: Bitmap, k: nat): (r: Option<nat>)
    decreases |bm| - k
  {
    if k >= |bm| then None
    else if bm[k] == FULL then Scan(bm, k + 1)
    else if bm[k] == 0 then Some(BITS * k)
    else Some(BITS * k + TrailingOnes(bm[k]))
  }

  // Walking over set bits does not change the answer.
  lemma {:induction false} FirstFitSkips(bm: Bitmap, from: nat, n: nat)
    requires from + n <= BITS * |bm| && forall k | from <= k < from + n :: IsSet(bm, k)
    ensures FirstFit(bm, from) == FirstFit(bm, from + n)
    decreases n
  {
    hide IsSet;
    if n > 0 { FirstFitSkips(bm, from + 1, n - 1); }
  }

  lemma EntrySet(bm: Bitmap, k: nat, n: nat)
    requires k < |bm| && n <= BITS && forall i | 0 <= i < n :: InWord(bm[k], i)
    ensures forall b | BITS * k <= b < BITS * k + n && b < BITS * |bm| :: IsSet(bm, b)
  {
    hide InWord, IsSet;
    forall b | BITS * k <= b < BITS * k + n && b < BITS * |bm| ensures IsSet(bm, b) {
      BitOfEntry(bm, k, b - BITS * k);
    }
  }

  // The word-skipping scan finds the least clear bit of the whole bitmap.
  lemma {:induction false} ScanIsFirstFit(bm: Bitmap, k: nat)
    requires k <= |bm|
    ensures Scan(bm, k) == FirstFit(bm, BITS * k)
    decreases |bm| - k
  {
    hide IsSet, InWord;
    if k < |bm| {
      if bm[k] == FULL {
        forall i | 0 <= i < BITS ensures InWord(bm[k], i) { WordEnds(i); }
        EntrySet(bm, k, BITS);
        FirstFitSkips(bm, BITS * k, BITS);
        ScanIsFirstFit(bm, k + 1);
      } else if bm[k] == 0 {
        WordEnds(0);
        BitOfEntry(bm, k, 0);
      } else {
        var c := TrailingOnes(bm[k]);
        EntrySet(bm, k, c);
        BitOfEntry(bm, k, c);
        FirstFitSkips(bm, BITS * k, c);
      }
    }
  }

  lemma WordEnds(i: nat)
    requires i < BITS
    ensures InWord(FULL, i) && !InWord(0, i)
  {
    hide One, Meets;
    MaskIsShift(i);
    FullWord(Pos(i));
  }

  // ---- Pages as sets ----

  function Clear(bm: Bitmap): (s: set<nat>) {
    set i | 0 <= i < BITS * |bm| && !IsSet(bm, i)
  }

  lemma ClearAfterSet(bm: Bitmap, i: nat)
    requires i < BITS * |bm|
    ensures Clear(SetBit(bm, i)) == Clear(bm) - {i}
  {
    hide IsSet, SetBit;
    forall j | 0 <= j < BITS * |bm| ensures IsSet(SetBit(bm, i), j) <==> i == j || IsSet(bm, j) {
      SetBitSets(bm, i, j);
    }
  }

  lemma ClearAfterUnset(bm: Bitmap, i: nat)
    requires i < BITS * |bm|
    ensures Clear(UnsetBit(bm, i)) == Clear(bm) + {i}
  {
    hide IsSet, UnsetBit;
    forall j | 0 <= j < BITS * |bm| ensures IsSet(UnsetBit(bm, i), j) <==> i != j && IsSet(bm, j) {
      UnsetBitClears(bm, i, j);
    }
  }

  // ---- The allocation step ----

  // The intended step: take the least clear bit.
  function Take(bm: Bitmap): (r: (Bitmap, Option<nat>))
    ensures |r.0| == |bm|
  {
    var c := FirstFit(bm, 0);
    match c case None => (bm, None) case Some(i) => (SetBit(bm, i), c)
  }

  // The step as written: an all-clear entry gets bit 0 of the whole bitmap set.
  function TakeLiteral(bm: Bitmap): (r: (Bitmap, Option<nat>))
    ensures |r.0| == |bm|
  {
    var k := FirstOpen(bm);
    if k == |bm| then (bm, None)
    else if bm[k] == 0 then (SetBit(bm, 0), Some(BITS * k))
    else
      var c := BITS * k + TrailingOnes(bm[k]);
      (SetBit(bm, c), Some(c))
  }

  // The first entry that is not full.
  function FirstOpen(bm: Bitmap): (k: nat)
    ensures k <= |bm|
    ensures forall i | 0 <= i < k :: bm[i] == FULL
    ensures k < |bm| ==> bm[k] != FULL
  {
    if bm == [] || bm[0] != FULL then 0 else 1 + FirstOpen(bm[1..])
  }

  // The guard of the branch that goes wrong.
  predicate Sound(bm: Bitmap) {
    var k := FirstOpen(bm);
    k == 0 || k == |bm| || bm[k] != 0
  }

  lemma {:induction false} ScanFromOpen(bm: Bitmap, k: nat)
    requires k <= FirstOpen(bm)
    ensures Scan(bm, k) == Scan(bm, FirstOpen(bm))
    decreases |bm| - k
  {
    if k < FirstOpen(bm) { ScanFromOpen(bm, k + 1); }
  }

  // The page handed out is always the first fit; the bitmap left behind is right exactly when
  // the first entry that is not full is entry 0 or has a bit set.
  lemma LiteralIff(bm: Bitmap)
    ensures TakeLiteral(bm).1 == FirstFit(bm, 0) == Take(bm).1
    ensures TakeLiteral(bm) == Take(bm) <==> Sound(bm)
    ensures !Sound(bm) ==> TakeLiteral(bm).0 == bm
  {
    hide IsSet, InWord, SetBit;
    ScanIsFirstFit(bm, 0);
    ScanFromOpen(bm, 0);
    var k := FirstOpen(bm);
    if !Sound(bm) {
      SetAgain(bm);
      TakeChanges(bm, BITS * k);
    }
  }

  // Bit 0 of a full entry 0 is set already.
  lemma SetAgain(bm: Bitmap)
    requires bm != [] && bm[0] == FULL
    ensures SetBit(bm, 0) == bm
  {
    assert Or(FULL, Mask(0)) == FULL;
    assert bm[0 := FULL] == bm;
  }

  lemma TakeChanges(bm: Bitmap, i: nat)
    requires i < BITS * |bm| && !IsSet(bm, i)
    ensures SetBit(bm, i) != bm
  {
    SetBitSets(bm, i, i);
  }
}
