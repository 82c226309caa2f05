// The spinlock as a state machine: one step per memory access, any CPUs, any callers
// (kernel/lock/spinlock.c).
module Spinlock {

  // A CPU number as srv_hal_GetExecutingCPU returns it.
  type Cpu = c: nat | c < 0x1_0000_0000

  // The number that the int32_t conversion turns into -1, the value for "nobody".
  const NOBODY_CPU: Cpu := 0xFFFF_FFFF

  function Int32(c: Cpu): (i: int) {
    if c < 0x8000_0000 then c else c - 0x1_0000_0000
  }

  lemma Int32Injective(c: Cpu, d: Cpu)
    ensures Int32(c) == Int32(d) <==> c == d
    ensures Int32(c) == -1 <==> c == NOBODY_CPU
  {
  }

  // The same number modulo 2^32, in the range of an int32_t.
  lemma Int32Means(c: Cpu)
    ensures -0x8000_0000 <= Int32(c) < 0x8000_0000
    ensures Int32(c) == c || Int32(c) == c - 0x1_0000_0000
    ensures Int32(c) == -1 <==> c == 0xFFFF_FFFF
  {
  }

  // Where a CPU is: outside the lock code, in the spin loop, past it but before the owner write,
  // before the owner check, and before the first and the second write of Release.
  datatype Pc = Outside | Spinning | Won | Checking | Leaving | Halfway | Panicked

  // Line 44 before line 45 as written, or the other way round.
  datatype Order = ClearFirst | ResetFirst

  // `holders` is history: who has won the flag and not cleared it since.
  datatype State = State(flag: bool, owner: int, pcs: map<Cpu, Pc>, holders: set<Cpu>)

  datatype Step =
    | CallAcquire(cpu: Cpu)
    | TestAndSet(cpu: Cpu)
    | WriteOwner(cpu: Cpu)
    | CallRelease(cpu: Cpu)
    | CheckOwner(cpu: Cpu)
    | ClearFlag(cpu: Cpu)
    | ResetOwner(cpu: Cpu)

  function PcOf(s: State, c: Cpu): (r: Pc) {
    if c in s.pcs then s.pcs[c] else Outside
  }

  // spinlock_InitAnonymous
  const UNLOCKED: State := State(false, -1, map[], {})

  predicate Enabled(s: State, step: Step, order: Order) {
    var pc := PcOf(s, step.cpu);
    match step
    case CallAcquire(_) => pc == Outside
    case TestAndSet(_) => pc == Spinning
    case WriteOwner(_) => pc == Won
    case CallRelease(_) => pc == Outside
    case CheckOwner(_) => pc == Checking
    case ClearFlag(_) => pc == if order.ClearFirst? then Leaving else Halfway
    case ResetOwner(_) => pc == if order.ClearFirst? then Halfway else Leaving
  }

  function Goto(s: State, c: Cpu, pc: Pc): (r: State) {
    s.(pcs := s.pcs[c := pc])
  }

  // One step of one CPU. A step that is not its turn changes nothing, so every sequence of
  // steps is an interleaving, and every interleaving is one.
  function Advance(s: State, step: Step, order: Order): (r: State) {
    if !Enabled(s, step, order) then s
    else
      match step
      case CallAcquire(c) => Goto(s, c, Spinning)
      case TestAndSet(c) => if s.flag then s else Goto(s.(flag := true, holders := s.holders + {c}), c, Won)
      case WriteOwner(c) => Goto(s.(owner := Int32(c)), c, Outside)
      case CallRelease(c) => Goto(s, c, Checking)
      case CheckOwner(c) => Goto(s, c, if Int32(c) == s.owner then Leaving else Panicked)
      case ClearFlag(c) =>
        Goto(s.(flag := false, holders := s.holders - {c}), c, if order.ClearFirst? then Halfway else Outside)
      case ResetOwner(c) => Goto(s.(owner := -1), c, if order.ClearFirst? then Outside else Halfway)
  }

  function Run(steps: seq<Step>, order: Order): (r: State) {
    if steps == [] then UNLOCKED
    else Advance(Run(steps[..|steps| - 1], order), steps[|steps| - 1], order)
  }

  // ---- Safety ----

  // At most one holder, and the flag says whether there is one.
  predicate Exclusive(s: State) {
    && (forall c, d | c in s.holders && d in s.holders :: c == d)
    && (s.flag <==> s.holders != {})
  }

  // Whoever got past the owner check and has yet to clear the flag holds the lock.
  predicate OnlyHoldersLeave(s: State, order: Order) {
    forall c {:trigger PcOf(s, c)} ::
      PcOf(s, c) == Leaving || (order.ResetFirst? && PcOf(s, c) == Halfway) ==> c in s.holders
  }

  predicate Safe(s: State, order: Order) {
    Exclusive(s) && OnlyHoldersLeave(s, order)
  }

  // Between a CPU's owner write and its owner reset.
  predicate Signed(s: State, c: Cpu, order: Order) {
    if order.ClearFirst? then (c in s.holders && PcOf(s, c) != Won) || PcOf(s, c) == Halfway
    else c in s.holders && PcOf(s, c) != Won && PcOf(s, c) != Halfway
  }

  // The inductive invariant: winners hold the lock, and the owner field names a CPU only
  // between its owner write and its owner reset.
  predicate Inv(s: State, order: Order) {
    && Safe(s, order)
    && NOBODY_CPU !in s.pcs
    && (forall c {:trigger PcOf(s, c)} :: PcOf(s, c) == Won ==> c in s.holders)
    && (forall c {:trigger PcOf(s, c)} :: order.ClearFirst? && PcOf(s, c) == Halfway ==> c !in s.holders)
    && (forall c {:trigger Int32(c)} :: c != NOBODY_CPU && s.owner == Int32(c) ==> Signed(s, c, order))
  }

  lemma PcsAfter(s: State, c: Cpu, pc: Pc, d: Cpu)
    ensures PcOf(Goto(s, c, pc), d) == if d == c then pc else PcOf(s, d)
  {
  }

  lemma StepKeepsInv(s: State, step: Step, order: Order)
    requires Inv(s, order) && step.cpu != NOBODY_CPU
    ensures Inv(Advance(s, step, order), order)
  {
    hide Int32;
    var c := step.cpu;
    var s' := Advance(s, step, order);
    forall d ensures Int32(c) == Int32(d) <==> c == d { Int32Injective(c, d); }
    forall d ensures Int32(d) == -1 <==> d == NOBODY_CPU { Int32Injective(d, d); }
    forall d ensures d != c ==> PcOf(s', d) == PcOf(s, d) {}
  }

  lemma KeepsInv(s: State, step: Step, order: Order)
    ensures Inv(s, order) && step.cpu != NOBODY_CPU ==> Inv(Advance(s, step, order), order)
  {
    hide Inv, Advance;
    if Inv(s, order) && step.cpu != NOBODY_CPU { StepKeepsInv(s, step, order); }
  }

  // In every interleaving of any CPUs but the one numbered -1.
  lemma {:induction false} RunKeepsInv(steps: seq<Step>, order: Order)
    requires forall k | 0 <= k < |steps| :: steps[k].cpu != NOBODY_CPU
    ensures Inv(Run(steps, order), order)
    decreases |steps|
  {
    hide Advance, Inv;
    if steps == [] {
      StartInv(order);
    } else {
      RunKeepsInv(steps[..|steps| - 1], order);
      StepKeepsInv(Run(steps[..|steps| - 1], order), steps[|steps| - 1], order);
    }
  }

  lemma StartInv(order: Order)
    ensures Inv(UNLOCKED, order)
  {
    forall d ensures Int32(d) == -1 <==> d == NOBODY_CPU { Int32Injective(d, d); }
  }

  // A CPU that does not hold the lock panics in Release, and the flag stays as it is.
  predicate StrangerPanics(s: State, c: Cpu, order: Order) {
    PcOf(s, c) == Checking && c !in s.holders ==>
      PcOf(Advance(s, CheckOwner(c), order), c) == Panicked && Advance(s, CheckOwner(c), order).flag == s.flag
  }

  // The promises of the lock to a set of CPUs, over every interleaving of their steps: mutual
  // exclusion, and that only holders get past the owner check of Release.
  ghost predicate Excludes(cpus: set<Cpu>, order: Order) {
    forall steps: seq<Step> | StepsOf(steps, cpus) :: Exclusive(Run(steps, order))
  }

  ghost predicate StopsStrangers(cpus: set<Cpu>, order: Order) {
    forall steps: seq<Step> | StepsOf(steps, cpus) ::
      && OnlyHoldersLeave(Run(steps, order), order)
      && forall c | c in cpus :: StrangerPanics(Run(steps, order), c, order)
  }

  predicate StepsOf(steps: seq<Step>, cpus: set<Cpu>) {
    forall k | 0 <= k < |steps| :: steps[k].cpu in cpus
  }

  lemma Then(steps: seq<Step>, s: State, step: Step, cpus: set<Cpu>, order: Order) returns (r: seq<Step>, t: State)
    requires s == Run(steps, order) && step.cpu in cpus && StepsOf(steps, cpus)
    ensures r == steps + [step] && t == Advance(s, step, order) == Run(r, order) && StepsOf(r, cpus)
  {
    r := steps + [step];
    t := Advance(s, step, order);
    assert r[..|r| - 1] == steps;
  }

  // Mutual exclusion holds in every interleaving exactly when none of the CPUs has the number
  // that converts to -1, or there is no other CPU.
  lemma ExcludesIff(cpus: set<Cpu>, order: Order)
    ensures Excludes(cpus, order) <==> NOBODY_CPU !in cpus || cpus == {NOBODY_CPU}
  {
    hide Run, Inv;
    if NOBODY_CPU !in cpus {
      forall steps: seq<Step> | StepsOf(steps, cpus) ensures Exclusive(Run(steps, order)) {
        RunKeepsInv(steps, order);
        InvExcludes(Run(steps, order), order);
      }
    } else if cpus == {NOBODY_CPU} {
      forall steps: seq<Step> | StepsOf(steps, cpus) ensures Exclusive(Run(steps, order)) {
        AloneExcludes(steps, order);
      }
    } else {
      var c := OtherCpu(cpus);
      var steps := TwoHolders(c, order);
      assert c in Run(steps, order).holders && NOBODY_CPU in Run(steps, order).holders;
    }
  }

  lemma OtherCpu(cpus: set<Cpu>) returns (c: Cpu)
    requires NOBODY_CPU in cpus && cpus != {NOBODY_CPU}
    ensures c in cpus && c != NOBODY_CPU
  {
    c :| c in cpus && c != NOBODY_CPU;
  }

  lemma InvExcludes(s: State, order: Order)
    requires Inv(s, order)
    ensures Exclusive(s)
  {
  }

  // A CPU alone cannot share the lock, whatever its number.
  lemma {:induction false} AloneExcludes(steps: seq<Step>, order: Order)
    requires StepsOf(steps, {NOBODY_CPU})
    ensures var s := Run(steps, order); Exclusive(s) && s.holders <= {NOBODY_CPU}
    decreases |steps|
  {
    hide PcOf, Int32;
    if steps != [] { AloneExcludes(steps[..|steps| - 1], order); }
  }

  // CPU c takes the lock; before it signs, the CPU numbered -1 passes for "nobody" in Release.
  lemma NobodyLeaves(c: Cpu, order: Order) returns (r: seq<Step>)
    requires c != NOBODY_CPU
    ensures StepsOf(r, {c, NOBODY_CPU})
    ensures var s := Run(r, order); s.flag && s.holders == {c} && PcOf(s, NOBODY_CPU) == Leaving
  {
    var cpus, n := {c, NOBODY_CPU}, NOBODY_CPU;
    var r1, s1 := Then([], UNLOCKED, CallAcquire(c), cpus, order);
    var r2, s2 := Then(r1, s1, TestAndSet(c), cpus, order);
    var r3, s3 := Then(r2, s2, CallRelease(n), cpus, order);
    var r4, s4 := Then(r3, s3, CheckOwner(n), cpus, order);
    r := r4;
  }

  // It clears the flag, though it never held the lock, and takes the lock too.
  lemma TwoHolders(c: Cpu, order: Order) returns (r: seq<Step>)
    requires c != NOBODY_CPU
    ensures StepsOf(r, {c, NOBODY_CPU}) && Run(r, order).holders == {c, NOBODY_CPU}
  {
    var cpus, n := {c, NOBODY_CPU}, NOBODY_CPU;
    var r4 := NobodyLeaves(c, order);
    var r6, s6 := FinishesRelease(r4, Run(r4, order), n, cpus, order);
    var r7, s7 := Then(r6, s6, CallAcquire(n), cpus, order);
    var r8, s8 := Then(r7, s7, TestAndSet(n), cpus, order);
    r := r8;
  }

  // The two writes of Release, in either order.
  lemma FinishesRelease(steps: seq<Step>, s: State, c: Cpu, cpus: set<Cpu>, order: Order)
      returns (r: seq<Step>, t: State)
    requires s == Run(steps, order) && c in cpus && StepsOf(steps, cpus) && PcOf(s, c) == Leaving
    ensures StepsOf(r, cpus) && t == Run(r, order)
    ensures !t.flag && t.holders == s.holders - {c} && PcOf(t, c) == Outside
  {
    var first, last := if order.ClearFirst? then ClearFlag(c) else ResetOwner(c),
                       if order.ClearFirst? then ResetOwner(c) else ClearFlag(c);
    var r1, s1 := Then(steps, s, first, cpus, order);
    r, t := Then(r1, s1, last, cpus, order);
  }

  // Every wrongful Release panics, and leaves the flag, in every interleaving exactly when none
  // of the CPUs has that number.
  lemma StopsStrangersIff(cpus: set<Cpu>, order: Order)
    ensures StopsStrangers(cpus, order) <==> NOBODY_CPU !in cpus
  {
    if NOBODY_CPU in cpus {
      var steps := [CallRelease(NOBODY_CPU)];
      NobodyPasses(order);
      assert StepsOf(steps, cpus);
      assert !StrangerPanics(Run(steps, order), NOBODY_CPU, order);
    } else {
      forall steps: seq<Step> | StepsOf(steps, cpus)
        ensures OnlyHoldersLeave(Run(steps, order), order)
        ensures forall c | c in cpus :: StrangerPanics(Run(steps, order), c, order)
      {
        RunKeepsInv(steps, order);
        forall c | c in cpus ensures StrangerPanics(Run(steps, order), c, order) {
          InvStrangerPanics(Run(steps, order), c, order);
        }
      }
    }
  }

  lemma InvStrangerPanics(s: State, c: Cpu, order: Order)
    requires Inv(s, order) && c != NOBODY_CPU
    ensures StrangerPanics(s, c, order)
  {
    hide Int32;
    PcsAfter(s, c, Panicked, c);
  }

  lemma NobodyPasses(order: Order)
    ensures var s := Run([CallRelease(NOBODY_CPU)], order);
            && !StrangerPanics(s, NOBODY_CPU, order)
            && PcOf(Advance(s, CheckOwner(NOBODY_CPU), order), NOBODY_CPU) == Leaving
  {
    var steps := [CallRelease(NOBODY_CPU)];
    assert steps[..0] == [];
    assert Run(steps, order) == Goto(UNLOCKED, NOBODY_CPU, Checking);
  }

  // ---- Rightful releases ----

  // d has cleared the flag at some point.
  predicate HasCleared(steps: seq<Step>, d: Cpu) {
    if steps == [] then false
    else
      var before, last := steps[..|steps| - 1], steps[|steps| - 1];
      (last == ClearFlag(d) && Enabled(Run(before, ClearFirst), last, ClearFirst)) || HasCleared(before, d)
  }

  // c's last win of the flag comes after a flag clear of d, and d has not cleared it since.
  predicate OwnedBefore(steps: seq<Step>, d: Cpu, c: Cpu) {
    if steps == [] then false
    else
      var before, last := steps[..|steps| - 1], steps[|steps| - 1];
      var s := Run(before, ClearFirst);
      if !Enabled(s, last, ClearFirst) then OwnedBefore(before, d, c)
      else if last == TestAndSet(c) && !s.flag then HasCleared(before, d)
      else if last == ClearFlag(d) then false
      else OwnedBefore(before, d, c)
  }

  // Since c's last owner write, an owner reset has landed of a CPU that owned the lock before c.
  predicate LateReset(steps: seq<Step>, c: Cpu) {
    if steps == [] then false
    else
      var before, last := steps[..|steps| - 1], steps[|steps| - 1];
      if !Enabled(Run(before, ClearFirst), last, ClearFirst) then LateReset(before, c)
      else if last == WriteOwner(c) then false
      else (last.ResetOwner? && OwnedBefore(before, last.cpu, c)) || LateReset(before, c)
  }

  // The reset in question, and the CPU it belongs to.
  lemma {:induction false} LateResetBy(steps: seq<Step>, c: Cpu) returns (k: nat, d: Cpu)
    requires LateReset(steps, c)
    ensures k < |steps| && steps[k] == ResetOwner(d) && Enabled(Run(steps[..k], ClearFirst), steps[k], ClearFirst)
    ensures OwnedBefore(steps[..k], d, c) && forall i | k < i < |steps| ::
              Enabled(Run(steps[..i], ClearFirst), steps[i], ClearFirst) ==> steps[i] != WriteOwner(c)
    decreases |steps|
  {
    hide Run, Enabled, OwnedBefore;
    var n := |steps| - 1;
    if LateReset(steps[..n], c) {
      k, d := LateResetBy(steps[..n], c);
      assert steps[..n][..k] == steps[..k];
      forall i | k < i < n ensures steps[..n][..i] == steps[..i] && steps[..n][i] == steps[i] {}
    } else {
      k, d := n, steps[n].cpu;
    }
  }

  lemma {:induction false} HalfwayHasCleared(steps: seq<Step>, d: Cpu)
    requires PcOf(Run(steps, ClearFirst), d) == Halfway
    ensures HasCleared(steps, d)
    decreases |steps|
  {
    hide Int32;
    var before := steps[..|steps| - 1];
    var s, last := Run(before, ClearFirst), steps[|steps| - 1];
    if PcOf(s, d) == Halfway {
      HalfwayHasCleared(before, d);
    } else {
      assert PcOf(Advance(s, last, ClearFirst), d) != PcOf(s, d);
      assert last.cpu == d;
    }
  }

  // The CPU whose owner reset is still to come, while c holds the lock, is an earlier owner: it
  // cleared the flag before c won it.
  lemma {:induction false} LateResetterIsEarlier(steps: seq<Step>, d: Cpu, c: Cpu)
    requires forall k | 0 <= k < |steps| :: steps[k].cpu != NOBODY_CPU
    requires var s := Run(steps, ClearFirst); Enabled(s, ResetOwner(d), ClearFirst) && c in s.holders
    ensures c != d && OwnedBefore(steps, d, c)
    decreases |steps|
  {
    hide Int32;
    RunKeepsInv(steps, ClearFirst);
    var before := steps[..|steps| - 1];
    var s, last := Run(before, ClearFirst), steps[|steps| - 1];
    RunKeepsInv(before, ClearFirst);
    if Enabled(s, last, ClearFirst) && last == TestAndSet(c) && !s.flag {
      HalfwayHasCleared(before, d);
    } else {
      HeldAndHalfway(s, last, d, c);
      LateResetterIsEarlier(before, d, c);
    }
  }

  lemma HeldAndHalfway(s: State, step: Step, d: Cpu, c: Cpu)
    requires Inv(s, ClearFirst) && c != d
    requires var t := Advance(s, step, ClearFirst); c in t.holders && PcOf(t, d) == Halfway
    requires !(Enabled(s, step, ClearFirst) && step == TestAndSet(c) && !s.flag)
    ensures c in s.holders && PcOf(s, d) == Halfway
  {
    hide Int32;
    assert PcOf(Advance(s, step, ClearFirst), d) == PcOf(s, d) || step.cpu == d;
    assert PcOf(s, step.cpu) == PcOf(s, step.cpu);
  }

  lemma {:induction false} OwnerOfHolder(steps: seq<Step>, c: Cpu)
    requires forall k | 0 <= k < |steps| :: steps[k].cpu != NOBODY_CPU
    requires var s := Run(steps, ClearFirst); c in s.holders && PcOf(s, c) != Won
    ensures Run(steps, ClearFirst).owner == if LateReset(steps, c) then -1 else Int32(c)
    decreases |steps|
  {
    hide Int32;
    var before := steps[..|steps| - 1];
    var s, last := Run(before, ClearFirst), steps[|steps| - 1];
    RunKeepsInv(before, ClearFirst);
    if Enabled(s, last, ClearFirst) && last == WriteOwner(c) {
    } else {
      HeldBefore(s, last, c);
      if Enabled(s, last, ClearFirst) && last.ResetOwner? { LateResetterIsEarlier(before, last.cpu, c); }
      OwnerOfHolder(before, c);
    }
  }

  // A holder past its owner write was one before, unless the last step was that write; and no
  // one else writes a number.
  lemma HeldBefore(s: State, step: Step, c: Cpu)
    requires Inv(s, ClearFirst) && step.cpu != NOBODY_CPU
    requires c in Advance(s, step, ClearFirst).holders && PcOf(Advance(s, step, ClearFirst), c) != Won
    requires !(Enabled(s, step, ClearFirst) && step == WriteOwner(c))
    ensures c in s.holders && PcOf(s, c) != Won
    ensures Enabled(s, step, ClearFirst) ==> !step.WriteOwner? && (step.ResetOwner? ==> step.cpu != c)
  {
    hide Int32;
    assert PcOf(Advance(s, step, ClearFirst), c) == PcOf(s, c) || step.cpu == c;
    assert PcOf(s, step.cpu) == PcOf(s, step.cpu);
  }

  // As written: a holder's Release panics exactly when an earlier owner's reset of the owner
  // field has landed after the holder's own owner write.
  lemma RightfulPanicIff(steps: seq<Step>, c: Cpu)
    requires forall k | 0 <= k < |steps| :: steps[k].cpu != NOBODY_CPU
    requires var s := Run(steps, ClearFirst); c in s.holders && PcOf(s, c) == Checking
    ensures PcOf(Run(steps + [CheckOwner(c)], ClearFirst), c) == Panicked <==> LateReset(steps, c)
  {
    hide Int32, LateReset;
    OwnerOfHolder(steps, c);
    var more := steps + [CheckOwner(c)];
    assert more[..|more| - 1] == steps;
    RunKeepsInv(steps, ClearFirst);
    assert c != NOBODY_CPU;
    Int32Injective(c, c);
  }

  // With the reset first, every holder between its owner write and its owner reset is named.
  predicate HolderNamed(s: State) {
    forall c {:trigger PcOf(s, c)} :: c in s.holders && PcOf(s, c) != Won && PcOf(s, c) != Halfway ==>
        s.owner == Int32(c)
  }

  lemma StepKeepsNamed(s: State, step: Step)
    requires Inv(s, ResetFirst) && HolderNamed(s) && step.cpu != NOBODY_CPU
    ensures HolderNamed(Advance(s, step, ResetFirst))
  {
    hide Int32;
    var s' := Advance(s, step, ResetFirst);
    forall d ensures d != step.cpu ==> PcOf(s', d) == PcOf(s, d) {}
  }

  lemma {:induction false} RunKeepsNamed(steps: seq<Step>)
    requires forall k | 0 <= k < |steps| :: steps[k].cpu != NOBODY_CPU
    ensures HolderNamed(Run(steps, ResetFirst))
    decreases |steps|
  {
    hide Advance, HolderNamed;
    if steps == [] {
      NoHolderYet();
    } else {
      RunKeepsNamed(steps[..|steps| - 1]);
      RunKeepsInv(steps[..|steps| - 1], ResetFirst);
      StepKeepsNamed(Run(steps[..|steps| - 1], ResetFirst), steps[|steps| - 1]);
    }
  }

  lemma NoHolderYet()
    ensures HolderNamed(UNLOCKED)
  {
  }

  // With the reset before the flag clear, no rightful Release panics in any interleaving.
  lemma ResetFirstNeverPanics(steps: seq<Step>, c: Cpu)
    requires forall k | 0 <= k < |steps| :: steps[k].cpu != NOBODY_CPU
    requires var s := Run(steps, ResetFirst); c in s.holders && PcOf(s, c) == Checking
    ensures PcOf(Run(steps + [CheckOwner(c)], ResetFirst), c) == Leaving
  {
    hide Int32;
    RunKeepsNamed(steps);
    var more := steps + [CheckOwner(c)];
    assert more[..|more| - 1] == steps;
  }

  lemma Takes(steps: seq<Step>, s: State, c: Cpu) returns (r: seq<Step>, t: State)
    requires s == Run(steps, ClearFirst) && c in {0, 1} && StepsOf(steps, {0, 1})
    requires !s.flag && PcOf(s, c) == Outside
    ensures StepsOf(r, {0, 1}) && t == Run(r, ClearFirst)
    ensures t.flag && t.owner == Int32(c) && t.holders == s.holders + {c}
    ensures forall d :: PcOf(t, d) == PcOf(s, d)
  {
    hide Run, Int32;
    var r1, s1 := Then(steps, s, CallAcquire(c), {0, 1}, ClearFirst);
    var r2, s2 := Then(r1, s1, TestAndSet(c), {0, 1}, ClearFirst);
    r, t := Then(r2, s2, WriteOwner(c), {0, 1}, ClearFirst);
  }

  // CPU 0 takes the lock, releases it, and stops between the two writes.
  lemma StopsHalfway() returns (r: seq<Step>)
    ensures StepsOf(r, {0, 1})
    ensures var s := Run(r, ClearFirst);
            !s.flag && s.holders == {} && PcOf(s, 0) == Halfway && PcOf(s, 1) == Outside
  {
    var r3, s3 := Takes([], UNLOCKED, 0);
    assert PcOf(s3, 0) == Outside && PcOf(s3, 1) == Outside;
    var r4, s4 := Then(r3, s3, CallRelease(0), {0, 1}, ClearFirst);
    var r5, s5 := Then(r4, s4, CheckOwner(0), {0, 1}, ClearFirst);
    var r6, s6 := Then(r5, s5, ClearFlag(0), {0, 1}, ClearFirst);
    r := r6;
  }

  // Two CPUs suffice for a rightful Release to panic in the code as written.
  lemma RightfulPanicHappens()
    ensures exists steps: seq<Step> ::
              && StepsOf(steps, {0, 1})
              && 1 in Run(steps, ClearFirst).holders && PcOf(Run(steps, ClearFirst), 1) == Panicked
  {
    var r6 := StopsHalfway();
    var r9, s9 := Takes(r6, Run(r6, ClearFirst), 1);
    var r10, s10 := Then(r9, s9, ResetOwner(0), {0, 1}, ClearFirst);
    var r11, s11 := Then(r10, s10, CallRelease(1), {0, 1}, ClearFirst);
    var r12, s12 := Then(r11, s11, CheckOwner(1), {0, 1}, ClearFirst);
    assert 1 in s12.holders && PcOf(s12, 1) == Panicked;
  }

  // ---- The lock in memory ----

  // spinlock_t, and where each CPU is. Acquire and Release are split at their memory accesses;
  // whatever the callers do, the invariant is kept by every CPU but the one numbered -1.
  class Lock {
    var flag: bool
    var cpu: int
    var pcs: map<Cpu, Pc>
    ghost var holders: set<Cpu>

    ghost function Now(): (r: State)
      reads this
    {
      State(flag, cpu, pcs, holders)
    }

    constructor InitAnonymous()
      ensures Now() == UNLOCKED && Inv(Now(), ClearFirst)
    {
      flag, cpu, pcs, holders := false, -1, map[], {};
      new;
      StartInv(ClearFirst);
    }

    method EnterAcquire(c: Cpu)
      requires PcOf(Now(), c) == Outside
      modifies this
      ensures Now() == Advance(old(Now()), CallAcquire(c), ClearFirst)
      ensures old(Inv(Now(), ClearFirst)) && c != NOBODY_CPU ==> Inv(Now(), ClearFirst)
    {
      KeepsInv(Now(), CallAcquire(c), ClearFirst);
      pcs := pcs[c := Spinning];
    }

    // One turn of the spin loop; the loop ends when the flag was clear.
    method TryFlag(c: Cpu) returns (wasSet: bool)
      requires PcOf(Now(), c) == Spinning
      modifies this
      ensures wasSet == old(flag)
      ensures Now() == Advance(old(Now()), TestAndSet(c), ClearFirst)
      ensures old(Inv(Now(), ClearFirst)) && c != NOBODY_CPU ==> Inv(Now(), ClearFirst)
    {
      KeepsInv(Now(), TestAndSet(c), ClearFirst);
      wasSet := flag;
      flag := true;
      if !wasSet {
        pcs := pcs[c := Won];
        holders := holders + {c};
      }
    }

    method SignOwner(c: Cpu)
      requires PcOf(Now(), c) == Won
      modifies this
      ensures Now() == Advance(old(Now()), WriteOwner(c), ClearFirst)
      ensures old(Inv(Now(), ClearFirst)) && c != NOBODY_CPU ==> Inv(Now(), ClearFirst)
      ensures cpu == Int32(c) && (old(Inv(Now(), ClearFirst)) ==> c in holders)
    {
      KeepsInv(Now(), WriteOwner(c), ClearFirst);
      cpu := Int32(c);
      pcs := pcs[c := Outside];
    }

    method EnterRelease(c: Cpu)
      requires PcOf(Now(), c) == Outside
      modifies this
      ensures Now() == Advance(old(Now()), CallRelease(c), ClearFirst)
      ensures old(Inv(Now(), ClearFirst)) && c != NOBODY_CPU ==> Inv(Now(), ClearFirst)
    {
      KeepsInv(Now(), CallRelease(c), ClearFirst);
      pcs := pcs[c := Checking];
    }

    // False is the panic. Only a holder gets past it.
    method CheckCaller(c: Cpu) returns (ok: bool)
      requires PcOf(Now(), c) == Checking
      modifies this
      ensures ok <==> PcOf(Now(), c) == Leaving
      ensures old(Inv(Now(), ClearFirst)) && c != NOBODY_CPU && ok ==> c in holders
      ensures Now() == Advance(old(Now()), CheckOwner(c), ClearFirst)
      ensures old(Inv(Now(), ClearFirst)) && c != NOBODY_CPU ==> Inv(Now(), ClearFirst)
    {
      KeepsInv(Now(), CheckOwner(c), ClearFirst);
      ok := Int32(c) == cpu;
      pcs := pcs[c := if ok then Leaving else Panicked];
    }

    method DropFlag(c: Cpu)
      requires PcOf(Now(), c) == Leaving
      modifies this
      ensures !flag && c !in holders
      ensures old(Inv(Now(), ClearFirst)) ==> holders == {}
      ensures Now() == Advance(old(Now()), ClearFlag(c), ClearFirst)
      ensures old(Inv(Now(), ClearFirst)) && c != NOBODY_CPU ==> Inv(Now(), ClearFirst)
    {
      KeepsInv(Now(), ClearFlag(c), ClearFirst);
      flag := false;
      pcs := pcs[c := Halfway];
      holders := holders - {c};
    }

    method ForgetOwner(c: Cpu)
      requires PcOf(Now(), c) == Halfway
      modifies this
      ensures Now() == Advance(old(Now()), ResetOwner(c), ClearFirst)
      ensures old(Inv(Now(), ClearFirst)) && c != NOBODY_CPU ==> Inv(Now(), ClearFirst)
    {
      KeepsInv(Now(), ResetOwner(c), ClearFirst);
      cpu := -1;
      pcs := pcs[c := Outside];
    }
  }
}
