// The eternal kernel heap: a cursor that only moves (kernel/mm/kalloc.c).
module EternalHeap {
  import opened Words

  datatype Block = Block(address: nat, size: nat)

  // The cursor after an allocation of `size` bytes; no value means the kernel panics.
  // The sum is a 64-bit one, so it can wrap.
  function Bump(cursor: nat, limit: nat, size: nat): (next: Option<nat>) {
    var sum := Wrap64(cursor + size);
    if sum < limit then Some(sum) else None
  }

  // An allocation succeeds exactly when the new cursor, wrapped once at most, lies below the limit.
  lemma BumpIff(cursor: nat, limit: nat, size: nat)
    requires cursor < 0x1_0000_0000_0000_0000 && size < 0x1_0000_0000_0000_0000
    ensures var sum := cursor + size;
            var next := if sum < 0x1_0000_0000_0000_0000 then sum else sum - 0x1_0000_0000_0000_0000;
            && (Bump(cursor, limit, size).Some? <==> next < limit)
            && (next < limit ==> Bump(cursor, limit, size).value == next)
  {
    WrapOnce(cursor + size);
  }

  ghost predicate PowerOfTwo(a: nat) {
    exists k: nat :: k < 64 && a == Pow2(k)
  }

  function Pow2(k: nat): (p: nat)
    ensures p > 0
  {
    if k == 0 then 1 else 2 * Pow2(k - 1)
  }

  // Masking with alignment - 1 is the residue, because the alignment is a power of two.
  function Residue(cursor: nat, alignment: nat): (r: nat)
    requires alignment > 0
    ensures r < alignment && r <= cursor
  {
    cursor % alignment
  }

  function Realign(cursor: nat, alignment: nat): (c: nat)
    requires alignment > 0
  {
    Wrap64(cursor + Residue(cursor, alignment))
  }

  lemma {:induction false} PowersDivide(j: nat, k: nat)
    requires j <= k
    ensures Pow2(k) == Pow2(k - j) * Pow2(j)
    decreases j
  {
    if j > 0 {
      PowersDivide(j - 1, k);
      assert Pow2(k - (j - 1)) == 2 * Pow2(k - j);
    }
  }

  lemma UniqueResidue(n: nat, d: int, r: nat, a: nat)
    requires a > 0 && n == d * a + r && r < a
    ensures Residue(n, a) == r
  {
    var k := n / a - d;
    assert k * a == n / a * a - d * a;
    if k != 0 { MultiplesApart(k, a); }
  }

  lemma {:induction false} MultiplesApart(k: int, a: int)
    requires k != 0 && a > 0
    ensures k * a >= a || k * a <= -a
    decreases if k < 0 then -k else k
  {
    if k > 1 {
      MultiplesApart(k - 1, a);
      assert k * a == (k - 1) * a + a;
    } else if k < -1 {
      MultiplesApart(k + 1, a);
      assert k * a == (k + 1) * a - a;
    }
  }

  // What the aligned entry point passes on: twice the old residue, so the result is
  // aligned exactly when the old address was, or was half way to the next boundary.
  lemma RealignResidue(cursor: nat, alignment: nat)
    requires PowerOfTwo(alignment)
    ensures Residue(Realign(cursor, alignment), alignment) == Residue(2 * Residue(cursor, alignment), alignment)
    ensures Realign(cursor, alignment) == (cursor + cursor % alignment) % 0x1_0000_0000_0000_0000
    ensures Residue(Realign(cursor, alignment), alignment) == 0
            <==> Residue(cursor, alignment) == 0 || 2 * Residue(cursor, alignment) == alignment
  {
    hide Pow2, Realign, Residue;
    var k: nat :| k < 64 && alignment == Pow2(k);
    RealignMeans(cursor, alignment);
    WordIsMultiple(k);
    var r := Residue(cursor, alignment);
    var z := Regroup(cursor, alignment, Pow2(64 - k));
    if 2 * r < alignment {
      UniqueResidue(Realign(cursor, alignment), z, 2 * r, alignment);
      UniqueResidue(2 * r, 0, 2 * r, alignment);
    } else {
      assert (z + 1) * alignment == z * alignment + alignment;
      UniqueResidue(Realign(cursor, alignment), z + 1, 2 * r - alignment, alignment);
      UniqueResidue(2 * r, 1, 2 * r - alignment, alignment);
    }
  }

  lemma RealignMeans(cursor: nat, alignment: nat)
    requires alignment > 0
    ensures Realign(cursor, alignment) == (cursor + cursor % alignment) % 0x1_0000_0000_0000_0000
  {
    WrapIsResidue(cursor + cursor % alignment);
  }

  // Asked for a 64-byte boundary from 8 bytes past one, the code passes on 16 bytes past it.
  lemma RealignMisses()
    ensures PowerOfTwo(64) && Realign(0x8100_0008, 64) == 0x8100_0010 && Residue(0x8100_0010, 64) == 16
  {
    assert Pow2(6) == 8 * Pow2(3) == 64;
  }

  // The wrap takes whole multiples of the alignment away.
  lemma Regroup(cursor: nat, a: nat, m: nat) returns (z: int)
    requires a > 0 && WORD64 == m * a
    ensures Realign(cursor, a) == z * a + 2 * Residue(cursor, a)
  {
    WrapIsResidue(cursor + cursor % a);
    var q, c := cursor / a, (cursor + cursor % a) / WORD64;
    z := q - c * m;
    assert cursor == q * a + cursor % a;
    assert c * WORD64 == (c * m) * a;
    assert z * a == q * a - (c * m) * a;
  }

  lemma WordIsMultiple(k: nat)
    requires k < 64
    ensures WORD64 == Pow2(64 - k) * Pow2(k)
  {
    PowersDivide(k, 64);
    assert Pow2(8) == 0x100;
    PowersDivide(8, 16);
    assert Pow2(16) == 0x1_0000;
    PowersDivide(16, 32);
    assert Pow2(32) == 0x1_0000_0000;
    PowersDivide(32, 64);
  }

  class Heap {
    const start: nat
    const limit: nat
    var cursor: nat

    ghost predicate Valid()
      reads this
    {
      0 < start <= cursor < limit <= WORD64
    }

    constructor (start: nat, limit: nat)
      requires 0 < start < limit <= WORD64
      ensures Valid() && cursor == start && this.start == start && this.limit == limit
    {
      this.start, this.limit, this.cursor := start, limit, start;
    }

    // No value stands for the panic, after which nothing runs.
    method EternalAlloc(size: nat) returns (p: Option<nat>)
      modifies this
      ensures p.Some? <==> Bump(old(cursor), limit, size).Some?
      ensures p.Some? ==> p.value == old(cursor) && cursor == Bump(old(cursor), limit, size).value
      ensures p.None? ==> cursor == old(cursor)
    {
      p := None;
      if Wrap64(cursor + size) < limit {
        p := Some(cursor);
        cursor := Wrap64(cursor + size);
      }
    }

    method EternalAllocAligned(size: nat, alignment: nat) returns (p: Option<nat>)
      requires PowerOfTwo(alignment)
      modifies this
      ensures var c := Realign(old(cursor), alignment);
              && (p.Some? <==> Bump(c, limit, size).Some?)
              && (p.Some? ==> p.value == c && cursor == Bump(c, limit, size).value)
              && (p.None? ==> cursor == c)
    {
      cursor := Wrap64(cursor + Residue(cursor, alignment));
      p := EternalAlloc(size);
    }
  }

  // ---- Whole runs ----

  datatype Request = Plain(size: nat) | Aligned(size: nat, alignment: nat)

  // 64-bit sizes, and the alignments the interface allows.
  ghost predicate LegalRequest(r: Request) {
    r.size < WORD64 && (r.Aligned? ==> PowerOfTwo(r.alignment))
  }

  ghost predicate AllLegal(rs: seq<Request>) {
    forall r | r in rs :: LegalRequest(r)
  }

  ghost function From(cursor: nat, r: Request): (c: nat)
    requires LegalRequest(r)
  {
    if r.Plain? then cursor else Realign(cursor, r.alignment)
  }

  // The sums of one request, taken without the 64-bit wrap, stay below 2^64.
  ghost predicate NoWrap(cursor: nat, r: Request)
    requires LegalRequest(r)
  {
    var c := if r.Plain? then cursor else cursor + Residue(cursor, r.alignment);
    c < WORD64 && c + r.size < WORD64
  }

  // The blocks a run hands out; no value once a request panics.
  ghost function BlocksOf(cursor: nat, limit: nat, rs: seq<Request>): (bs: Option<seq<Block>>)
    requires AllLegal(rs)
    ensures bs.Some? ==> |bs.value| == |rs|
    decreases |rs|
  {
    if rs == [] then Some([])
    else
      var c := From(cursor, rs[0]);
      match Bump(c, limit, rs[0].size)
      case None => None
      case Some(next) =>
        match BlocksOf(next, limit, rs[1..])
        case None => None
        case Some(rest) => Some([Block(c, rs[0].size)] + rest)
  }

  ghost predicate NeverWraps(cursor: nat, limit: nat, rs: seq<Request>)
    requires AllLegal(rs)
    decreases |rs|
  {
    rs == [] ||
    (NoWrap(cursor, rs[0]) &&
     var next := Bump(From(cursor, rs[0]), limit, rs[0].size);
     next.Some? ==> NeverWraps(next.value, limit, rs[1..]))
  }

  // In address order without overlap, between start and limit.
  ghost predicate Disjoint(start: nat, limit: nat, bs: seq<Block>) {
    && (forall i | 0 <= i < |bs| :: start <= bs[i].address && bs[i].address + bs[i].size < limit)
    && (forall i, j | 0 <= i < j < |bs| :: bs[i].address + bs[i].size <= bs[j].address)
  }

  lemma DisjointCons(start: nat, limit: nat, b: Block, rest: seq<Block>)
    requires start <= b.address && b.address + b.size < limit
    ensures Disjoint(start, limit, [b] + rest) <==> Disjoint(b.address + b.size, limit, rest)
  {
    hide Disjoint;
    if Disjoint(start, limit, [b] + rest) { DisjointTail(start, limit, b, rest); }
    if Disjoint(b.address + b.size, limit, rest) { DisjointJoin(start, limit, b, rest); }
  }

  lemma DisjointTail(start: nat, limit: nat, b: Block, rest: seq<Block>)
    requires Disjoint(start, limit, [b] + rest)
    ensures Disjoint(b.address + b.size, limit, rest)
  {
    var bs := [b] + rest;
    assert bs[0] == b;
    forall i | 0 <= i < |rest| ensures b.address + b.size <= rest[i].address && rest[i].address + rest[i].size < limit {
      assert bs[i + 1] == rest[i];
    }
    forall i, j | 0 <= i < j < |rest| ensures rest[i].address + rest[i].size <= rest[j].address {
      assert bs[i + 1] == rest[i] && bs[j + 1] == rest[j];
    }
  }

  lemma DisjointJoin(start: nat, limit: nat, b: Block, rest: seq<Block>)
    requires Disjoint(b.address + b.size, limit, rest) && start <= b.address && b.address + b.size < limit
    ensures Disjoint(start, limit, [b] + rest)
  {
    var bs := [b] + rest;
    forall i | 0 < i < |bs| ensures bs[i] == rest[i - 1] {}
  }

  // Blocks lie in address order, apart and inside the heap, exactly on the runs whose
  // address sums never pass 2^64.
  lemma {:induction false} RunDisjointIff(cursor: nat, limit: nat, rs: seq<Request>)
    requires cursor < limit <= WORD64 && AllLegal(rs) && BlocksOf(cursor, limit, rs).Some?
    ensures Disjoint(cursor, limit, BlocksOf(cursor, limit, rs).value) <==> NeverWraps(cursor, limit, rs)
    decreases |rs|
  {
    if rs != [] {
      var b := Block(From(cursor, rs[0]), rs[0].size);
      var next := Bump(b.address, limit, b.size).value;
      var rest := BlocksOf(next, limit, rs[1..]).value;
      RunDisjointIff(next, limit, rs[1..]);
      if NoWrap(cursor, rs[0]) {
        StepAdvances(cursor, limit, rs[0]);
        DisjointCons(cursor, limit, b, rest);
      } else {
        FirstWraps(cursor, limit, rs[0]);
        assert ([b] + rest)[0] == b;
      }
    }
  }

  lemma StepAdvances(cursor: nat, limit: nat, r: Request)
    requires cursor < limit <= WORD64 && LegalRequest(r) && NoWrap(cursor, r)
    requires Bump(From(cursor, r), limit, r.size).Some?
    ensures cursor <= From(cursor, r) && Bump(From(cursor, r), limit, r.size).value == From(cursor, r) + r.size < limit
  {
    hide Residue, PowerOfTwo;
  }

  // A wrapping request hands out a block that starts below the cursor or ends past the limit.
  lemma FirstWraps(cursor: nat, limit: nat, r: Request)
    requires cursor < limit <= WORD64 && LegalRequest(r) && !NoWrap(cursor, r)
    ensures From(cursor, r) < cursor || From(cursor, r) + r.size >= limit
  {
    hide Residue, PowerOfTwo;
    if r.Aligned? { WrapOnce(cursor + Residue(cursor, r.alignment)); }
  }

  lemma WrapOnce(x: nat)
    requires x < 2 * WORD64
    ensures Wrap64(x) == if x < WORD64 then x else x - WORD64
  {
  }

  // A size close to 2^64 passes the bound test and moves the cursor back over live blocks.
  lemma HugeSizeOverlaps()
    ensures var rs := [Plain(64), Plain(WORD64 - 16), Plain(32)];
            && AllLegal(rs)
            && BlocksOf(0x8100_0000, 0x8110_0000, rs).Some?
            && BlocksOf(0x8100_0000, 0x8110_0000, rs).value ==
               [Block(0x8100_0000, 64), Block(0x8100_0040, WORD64 - 16), Block(0x8100_0030, 32)]
  {
    var huge := WORD64 - 16;
    var rs := [Plain(64), Plain(huge), Plain(32)];
    assert rs[1..] == [Plain(huge), Plain(32)] && rs[1..][1..] == [Plain(32)] && rs[1..][1..][1..] == [];
    assert BlocksOf(0x8100_0050, 0x8110_0000, rs[1..][1..][1..]) == Some([]);
    assert BlocksOf(0x8100_0030, 0x8110_0000, rs[1..][1..]) == Some([Block(0x8100_0030, 32)] + []);
    WrapOnce(0x8100_0040 + huge);
    assert BlocksOf(0x8100_0040, 0x8110_0000, rs[1..]) ==
        Some([Block(0x8100_0040, huge)] + ([Block(0x8100_0030, 32)] + []));
  }
}
