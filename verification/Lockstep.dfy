/**
 Record and replay are in lockstep: the central theorems relating the two engines, for every
 guest, every source of injected values and runs of every length.
 */
module Lockstep {
  import opened Words
  import opened Trace
  import opened GuestMachine
  import Rec = Recorder
  import opened Replayer

  /** Replaying the event the recorder just logged takes one iteration to the recorder's state. */
  lemma OneEvent(p: Platform, o: Rec.Oracle, r: Rec.State)
    requires r.status.Running? && Rec.Step(p, o, r).status.Running?
    ensures |Rec.Step(p, o, r).log| == |r.log| + 1
    ensures var e := Rec.Step(p, o, r).log[|r.log|].event;
            Iterate(p, e, r.machine) == Iteration(Injected, Rec.Step(p, o, r).machine)
  {
  }

  lemma FirstIterationReturns(p: Platform, e: EventType, m: Machine)
    requires !Iterate(p, e, m).outcome.Spinning?
    ensures ReplayEvent(p, e, m) == Returned(Iterate(p, e, m).outcome, Iterate(p, e, m).machine, 1)
  {
    assert Loop(p, e, m, 0) == Iteration(Spinning, m);
    assert Loop(p, e, m, 1) == Iterate(p, e, m);
    ReplayEventIs(p, e, m, 1);
  }

  lemma ReplayTraceLast(p: Platform, events: seq<TraceEvent>, m: Machine)
    requires events != [] && Faithful(p, events[..|events| - 1], m)
    requires Iterate(p, events[|events| - 1].event, ReplayTrace(p, events[..|events| - 1], m).machine).outcome == Injected
    ensures Faithful(p, events, m)
    ensures ReplayTrace(p, events, m).machine ==
            Iterate(p, events[|events| - 1].event, ReplayTrace(p, events[..|events| - 1], m).machine).machine
  {
    var prev := ReplayTrace(p, events[..|events| - 1], m);
    FirstIterationReturns(p, events[|events| - 1].event, prev.machine);
  }

  /**
   Lockstep at every prefix. After replaying the first `k` recorded events the guest is in exactly
   the state the recorder was in after its `k`-th iteration, and no other branch was ever taken.
   */
  lemma {:induction false} Prefix(p: Platform, o: Rec.Oracle, m: Machine, n: nat, k: nat)
    requires k <= n && Rec.After(p, o, m, n).status.Running?
    ensures k <= |Rec.After(p, o, m, n).log|
    ensures var prefix := Rec.After(p, o, m, n).log[..k];
            Faithful(p, prefix, m) && ReplayTrace(p, prefix, m).machine == Rec.After(p, o, m, k).machine
    decreases k
  {
    hide Rec.Step, Iterate;
    Rec.RunningPrefix(p, o, m, k, n);
    if k > 0 {
      Prefix(p, o, m, n, k - 1);
      Rec.RunningPrefix(p, o, m, k - 1, n);
      var prefix := Rec.After(p, o, m, n).log[..k];
      assert prefix[..k - 1] == Rec.After(p, o, m, n).log[..k - 1];
      Rec.AfterSucc(p, o, m, k);
      OneEvent(p, o, Rec.After(p, o, m, k - 1));
      ReplayTraceLast(p, prefix, m);
    }
  }

  lemma StopKeepsLog(p: Platform, o: Rec.Oracle, r: Rec.State)
    requires r.status.Running? && Rec.Step(p, o, r).status.Stopped?
    ensures Rec.Step(p, o, r).log == r.log
    ensures Run(p.guest, r.machine) == Ran(Rec.Step(p, o, r).status.ctx, Rec.Step(p, o, r).machine)
  {
  }

  /**
   End-to-end determinism. For every record run that stops, replaying its log takes exactly one
   iteration per event, and the one further run ends at the same exit with the same registers and
   memory as the recorder.
   */
  lemma Determinism(p: Platform, o: Rec.Oracle, m: Machine, n: nat)
    requires Rec.After(p, o, m, n).status.Stopped?
    ensures var final := Rec.After(p, o, m, n);
            && Faithful(p, final.log, m)
            && Run(p.guest, ReplayTrace(p, final.log, m).machine) == Ran(final.status.ctx, final.machine)
  {
    var j := Rec.StopPoint(p, o, m, n);
    Prefix(p, o, m, j, j);
    Rec.RunningPrefix(p, o, m, j, j);
    Rec.AfterSucc(p, o, m, j + 1);
    var last := Rec.After(p, o, m, j);
    assert last.log[..j] == last.log;
    StopKeepsLog(p, o, last);
  }

  // ---------------------------------------------------------------------------------------------
  // The log.

  /** The oracle supplies, for event number `i`, the values that the event carries. */
  ghost predicate Supplies(o: Rec.Oracle, i: nat, e: EventType) {
    && (e.Cpuid? ==> o.cpuid(i) == Rec.CpuidValues(e.eax, e.ebx, e.ecx, e.edx))
    && (e.Rdtsc? ==> o.tsc(i) == Rec.TscValues(e.tscRax, e.tscRdx))
  }

  /** The event kind the recorder owes for a handled exit. */
  predicate KindMatches(reason: int, e: EventType) {
    match e
    case Cpuid(_, _, _, _) => reason == EXIT_CPUID
    case Rdtsc(_, _) => reason == EXIT_RDTSC
    case ContextSwitch(_) => reason == EXIT_VMCALL
    case Syscall(_, _) => false
  }

  lemma EntryKind(p: Platform, o: Rec.Oracle, r: Rec.State)
    requires r.status.Running? && |Rec.Step(p, o, r).log| == |r.log| + 1
    ensures var exit := Run(p.guest, r.machine);
            && exit.Ran? && KindMatches(exit.ctx.reason, Rec.Step(p, o, r).log[|r.log|].event)
            && Supplies(o, |r.log|, Rec.Step(p, o, r).log[|r.log|].event)
            && (Rec.Step(p, o, r).log[|r.log|].event.ContextSwitch? ==>
                 Rec.Step(p, o, r).log[|r.log|].event.nextThreadId == Low32(exit.machine.regs[Rcx].low))
            && Rec.Step(p, o, r).log[|r.log|].instructionCount == r.count
  {
  }

  lemma {:induction false} LogPrefix(p: Platform, o: Rec.Oracle, m: Machine, n: nat, i: nat)
    requires i < |Rec.After(p, o, m, n).log|
    ensures i < n && Rec.After(p, o, m, i).status.Running? && |Rec.After(p, o, m, i).log| == i
    ensures |Rec.After(p, o, m, i + 1).log| == i + 1
    ensures Rec.After(p, o, m, i + 1).log == Rec.After(p, o, m, n).log[..i + 1]
    decreases n
  {
    hide Rec.Step;
    if n > 0 {
      var prev := Rec.After(p, o, m, n - 1);
      Rec.AfterSucc(p, o, m, n);
      if prev.status.Running? {
        Rec.StepAppends(p, o, prev);
        Rec.RunningPrefix(p, o, m, n - 1, n - 1);
      } else {
        Rec.StoppedStays(p, o, prev);
      }
      if i < |prev.log| {
        LogPrefix(p, o, m, n - 1, i);
        assert prev.log[..i + 1] == Rec.After(p, o, m, n).log[..i + 1];
      } else {
        assert Rec.After(p, o, m, n).log[..i + 1] == Rec.After(p, o, m, n).log;
      }
    }
  }

  lemma {:induction false} CountIsLength(p: Platform, o: Rec.Oracle, m: Machine, n: nat)
    requires Rec.After(p, o, m, n).status.Running?
    ensures Rec.After(p, o, m, n).count == Low64(n)
    ensures p.build.Debug? ==> n < TWO_64
  {
    hide Rec.Step;
    if n > 0 {
      Rec.RunningPrefix(p, o, m, n - 1, n);
      Rec.AfterSucc(p, o, m, n);
      CountIsLength(p, o, m, n - 1);
      Rec.StepAppends(p, o, Rec.After(p, o, m, n - 1));
    }
  }

  /**
   Log faithfulness, in every reachable recorder state: entry `i` carries ordinal `i` (modulo the
   width of the counter), its kind is that of the `i`-th guest exit, its payload is what the oracle
   supplied for ordinal `i` or the low half of RCX, and it was there, unchanged, ever since
   iteration `i + 1`.
   */
  lemma LogIsFaithful(p: Platform, o: Rec.Oracle, m: Machine, n: nat, i: nat)
    requires i < |Rec.After(p, o, m, n).log|
    ensures var e := Rec.After(p, o, m, n).log[i];
            var exit := Run(p.guest, Rec.After(p, o, m, i).machine);
            && i < n && Rec.After(p, o, m, i).status.Running?
            && exit.Ran? && KindMatches(exit.ctx.reason, e.event)
            && Supplies(o, i, e.event)
            && (e.event.ContextSwitch? ==> e.event.nextThreadId == Low32(exit.machine.regs[Rcx].low))
            && e.instructionCount == Low64(i)
            && |Rec.After(p, o, m, i + 1).log| == i + 1
            && Rec.After(p, o, m, i + 1).log == Rec.After(p, o, m, n).log[..i + 1]
  {
    LogPrefix(p, o, m, n, i);
    Rec.AfterSucc(p, o, m, i + 1);
    EntryKind(p, o, Rec.After(p, o, m, i));
    CountIsLength(p, o, m, i);
  }

  /** With the constants the engine ships with, every intercept is answered, and logged, alike. */
  lemma ShippedValues(p: Platform, m: Machine, n: nat, i: nat)
    requires i < |Rec.After(p, Rec.SHIPPED_ORACLE, m, n).log|
    ensures match Rec.After(p, Rec.SHIPPED_ORACLE, m, n).log[i].event
            case Cpuid(eax, ebx, ecx, edx) =>
              eax == 0xAAAA_AAAA && ebx == 0xBBBB_BBBB && ecx == 0xCCCC_CCCC && edx == 0xDDDD_DDDD
            case Rdtsc(rax, rdx) => rax == 0x1000 && rdx == 0
            case ContextSwitch(_) => true
            case Syscall(_, _) => false
  {
    hide Rec.After;
    LogIsFaithful(p, Rec.SHIPPED_ORACLE, m, n, i);
  }

  // ---------------------------------------------------------------------------------------------
  // What one event does to the guest, register by register.

  /** The value register `r` is given by an event, or the one it keeps. */
  function InjectedValue(e: EventType, r: RegName, v: RegValue): RegValue {
    match e
    case Syscall(rax, _) => if r == Rax then Reg64(rax) else v
    case Rdtsc(rax, rdx) => if r == Rax then Reg64(rax) else if r == Rdx then Reg64(rdx) else v
    case Cpuid(eax, ebx, ecx, edx) =>
      if r == Rax then Reg64(eax) else if r == Rbx then Reg64(ebx)
      else if r == Rcx then Reg64(ecx) else if r == Rdx then Reg64(edx) else v
    case ContextSwitch(_) => v
  }

  /** The value of register `r` once the event is injected and RIP is past the instruction. */
  function ResumedValue(e: EventType, r: RegName, v: RegValue, length: byte): RegValue {
    if r == Rip then RegValue(Low64(v.low + length), v.high) else InjectedValue(e, r, v)
  }

  /** The length of the intercepted instruction: decoded for CPUID and RDTSC, three for VMCALL. */
  function LengthOf(ctx: ExitContext): (length: byte)
    ensures ctx.reason == 4 ==> length == 3
    ensures ctx.reason != 4 ==> length < 16 && (ctx.bitfield - length) % 16 == 0
  {
    if ctx.reason == EXIT_VMCALL then 3 else InstructionLength(ctx)
  }

  /** Writing distinct names gives each its own value and leaves the rest alone. */
  lemma SetAtMost(regs: RegFile, names: seq<RegName>, values: seq<RegValue>, r: RegName)
    requires |names| == |values|
    requires forall i, j :: 0 <= i < j < |names| ==> names[i] != names[j]
    ensures r !in names ==> SetAll(regs, names, values)[r] == regs[r]
    ensures forall i :: 0 <= i < |names| && names[i] == r ==> SetAll(regs, names, values)[r] == values[i]
  {
    hide SetAll;
    if r in names {
      var i :| 0 <= i < |names| && names[i] == r;
      SetAllLookup(regs, names, values, i);
    } else {
      SetAllFrame(regs, names, values, r);
    }
  }

  lemma SetTwo(regs: RegFile, values: seq<RegValue>, r: RegName)
    requires |values| == 2
    ensures SetAll(regs, [Rax, Rdx], values)[r] ==
            if r == Rax then values[0] else if r == Rdx then values[1] else regs[r]
  {
    hide SetAll;
    var names := [Rax, Rdx];
    SetAtMost(regs, names, values, r);
    assert names[0] == Rax && names[1] == Rdx;
  }

  lemma SetFour(regs: RegFile, values: seq<RegValue>, r: RegName)
    requires |values| == 4
    ensures SetAll(regs, [Rax, Rbx, Rcx, Rdx], values)[r] ==
            if r == Rax then values[0] else if r == Rbx then values[1]
            else if r == Rcx then values[2] else if r == Rdx then values[3] else regs[r]
  {
    hide SetAll;
    var names := [Rax, Rbx, Rcx, Rdx];
    SetAtMost(regs, names, values, r);
    assert names[0] == Rax && names[1] == Rbx && names[2] == Rcx && names[3] == Rdx;
  }

  lemma InjectedRegsAt(e: EventType, regs: RegFile, r: RegName)
    ensures InjectedRegs(e, regs)[r] == InjectedValue(e, r, regs[r])
  {
    hide SetAll;
    match e
    case Syscall(rax, _) => SetOne(regs, Rax, Reg64(rax));
    case Rdtsc(rax, rdx) => SetTwo(regs, [Reg64(rax), Reg64(rdx)], r);
    case Cpuid(a, b, c, d) => SetFour(regs, [Reg64(a), Reg64(b), Reg64(c), Reg64(d)], r);
    case ContextSwitch(_) =>
  }

  lemma RipIsNotInjected(e: EventType, regs: RegFile)
    ensures InjectedRegs(e, regs)[Rip] == regs[Rip]
  {
    InjectedRegsAt(e, regs, Rip);
  }

  lemma ResumedByInjection(build: Build, e: EventType, exit: Machine, length: byte, r: RegName)
    ensures var after := InjectAndAdvance(build, e, exit, length);
            after.outcome == Injected ==>
              after.machine.mem == exit.mem
              && after.machine.regs[r] == ResumedValue(e, r, exit.regs[r], length)
  {
    hide InjectedRegs, AdvanceRip, InjectedValue, Low64;
    AdvanceRipExact(build, exit.(regs := InjectedRegs(e, exit.regs)), length);
    RipIsNotInjected(e, exit.regs);
    InjectedRegsAt(e, exit.regs, r);
  }

  /**
   An injecting iteration of replay resumes the guest with the event's values, zero-extended, in
   the registers its kind names, RIP past the instruction, and nothing else changed: not any other
   register `r`, and not memory.
   */
  lemma InjectionEffect(p: Platform, e: EventType, m: Machine, r: RegName)
    requires Iterate(p, e, m).outcome == Injected
    ensures var ran := Run(p.guest, m);
            && ran.Ran? && KindMatches(ran.ctx.reason, e)
            && Iterate(p, e, m).machine.mem == ran.machine.mem
            && Iterate(p, e, m).machine.regs[r] == ResumedValue(e, r, ran.machine.regs[r], LengthOf(ran.ctx))
  {
    hide InjectAndAdvance, GetAll, Run, ResumedValue;
    var ran := Run(p.guest, m);
    ResumedByInjection(p.build, e, ran.machine, LengthOf(ran.ctx), r);
  }

  /** The recorder, handling an exit, does to every register and to memory what replay will do. */
  lemma RecordedEventEffect(p: Platform, o: Rec.Oracle, s: Rec.State, r: RegName)
    requires s.status.Running? && Rec.Step(p, o, s).status.Running?
    ensures |Rec.Step(p, o, s).log| == |s.log| + 1
    ensures var e, ran, after := Rec.Step(p, o, s).log[|s.log|].event, Run(p.guest, s.machine), Rec.Step(p, o, s).machine;
            && ran.Ran? && KindMatches(ran.ctx.reason, e)
            && after.mem == ran.machine.mem
            && after.regs[r] == ResumedValue(e, r, ran.machine.regs[r], LengthOf(ran.ctx))
  {
    hide Rec.Step, Iterate, Run, ResumedValue, KindMatches;
    OneEvent(p, o, s);
    InjectionEffect(p, Rec.Step(p, o, s).log[|s.log|].event, s.machine, r);
  }

  // ---------------------------------------------------------------------------------------------
  // What each exit leads to, in the hypervisor's own numbers.

  /** The registers an event sets, and to what. */
  function GivenBy(e: EventType): map<RegName, u64> {
    match e
    case Syscall(rax, _) => map[Rax := rax]
    case Rdtsc(rax, rdx) => map[Rax := rax, Rdx := rdx]
    case Cpuid(eax, ebx, ecx, edx) => map[Rax := eax, Rbx := ebx, Rcx := ecx, Rdx := edx]
    case ContextSwitch(_) => map[]
  }

  lemma GivenIsInjected(e: EventType, regs: RegFile, r: RegName)
    ensures r in GivenBy(e) ==> InjectedRegs(e, regs)[r] == RegValue(GivenBy(e)[r], 0)
    ensures r !in GivenBy(e) ==> InjectedRegs(e, regs)[r] == regs[r]
  {
    hide InjectedRegs;
    InjectedRegsAt(e, regs, r);
  }

  lemma RipIsNotGiven(e: EventType)
    ensures Rip !in GivenBy(e)
  {
  }

  lemma InjectionResumes(build: Build, e: EventType, exit: Machine, length: byte)
    ensures var after := InjectAndAdvance(build, e, exit, length);
            if build.Debug? && exit.regs[Rip].low + length >= 0x1_0000_0000_0000_0000
            then after.outcome == Faulted(ArithmeticOverflow)
            else after.outcome == Injected && Resumes(exit, after.machine, length, GivenBy(e))
  {
    hide InjectedRegs, AdvanceRip, GivenBy;
    var regs := InjectedRegs(e, exit.regs);
    AdvanceRipExact(build, exit.(regs := regs), length);
    RipIsNotGiven(e);
    forall r
      ensures r in GivenBy(e) ==> regs[r] == RegValue(GivenBy(e)[r], 0)
      ensures r !in GivenBy(e) ==> regs[r] == exit.regs[r]
    {
      GivenIsInjected(e, exit.regs, r);
    }
  }

  lemma LandsIsApply(before: Memory, stores: Memory, after: Memory)
    requires Lands(before, stores, after)
    ensures Apply(before, stores) == after
  {
  }

  lemma LowHalfOfRcx(regs: RegFile)
    ensures (regs[Rcx].low - Low32(GetAll(regs, [Rcx])[0].low)) % 0x1_0000_0000 == 0
  {
    var x := regs[Rcx].low;
    ModUnique(x - x % 0x1_0000_0000, 0x1_0000_0000, x / 0x1_0000_0000, 0);
  }

  lemma IterateCases(p: Platform, e: EventType, m: Machine, ctx: ExitContext, exit: Machine, length: byte, thread: u32)
    requires Run(p.guest, m) == Ran(ctx, exit)
    requires length == (if ctx.reason == 4 then 3 else InstructionLength(ctx))
    requires thread == Low32(GetAll(exit.regs, [Rcx])[0].low)
    ensures Iterate(p, e, m) ==
            if ctx.reason == 1 || ctx.reason == 8 then Iteration(Halted, exit)
            else if (ctx.reason == 4097 && !e.Cpuid?) || (ctx.reason == 4099 && !e.Rdtsc?) then Iteration(Spinning, exit)
            else if ctx.reason == 4 && !e.ContextSwitch? then Iteration(UnexpectedVmcall, exit)
            else if ctx.reason == 4 && e.nextThreadId != thread then Iteration(WrongThread(e.nextThreadId, thread), exit)
            else if ctx.reason !in {4, 4097, 4099} then Iteration(Unhandled(ctx.reason), exit)
            else InjectAndAdvance(p.build, e, exit, length)
  {
    hide InjectAndAdvance, GetAll, InstructionLength, Low32;
  }

  /**
   One iteration of `replay_event`, by exit reason: 4097 is CPUID, 4099 RDTSC, 4 VMCALL, 8 a halt and 1
   a fatal memory access. Whatever does not inject leaves the machine as the guest left it.
   */
  lemma ReplayedExit(p: Platform, e: EventType, m: Machine, ctx: ExitContext, stores: Memory, exit: Machine)
    returns (length: byte, thread: u32)
    requires p.guest(m.regs, m.mem) == Exit(ctx, exit.regs, stores) && Lands(m.mem, stores, exit.mem)
    ensures ctx.reason == 4 ==> length == 3 && (exit.regs[Rcx].low - thread) % 0x1_0000_0000 == 0
    ensures ctx.reason != 4 ==> length < 16 && (ctx.bitfield - length) % 16 == 0
    ensures var i := Iterate(p, e, m);
            if ctx.reason == 1 || ctx.reason == 8 then i == Iteration(Halted, exit)
            else if (ctx.reason == 4097 && !e.Cpuid?) || (ctx.reason == 4099 && !e.Rdtsc?) then i == Iteration(Spinning, exit)
            else if ctx.reason == 4 && !e.ContextSwitch? then i == Iteration(UnexpectedVmcall, exit)
            else if ctx.reason == 4 && e.nextThreadId != thread then
              i == Iteration(WrongThread(e.nextThreadId, thread), exit)
            else if ctx.reason !in {4, 4097, 4099} then i == Iteration(Unhandled(ctx.reason), exit)
            else if p.build.Debug? && exit.regs[Rip].low + length >= 0x1_0000_0000_0000_0000 then
              i.outcome == Faulted(ArithmeticOverflow)
            else i.outcome == Injected && Resumes(exit, i.machine, length, GivenBy(e))
  {
    hide InjectAndAdvance, GivenBy, GetAll, Apply, InstructionLength, Low32, Resumes, Iterate, Lands;
    LandsIsApply(m.mem, stores, exit.mem);
    LowHalfOfRcx(exit.regs);
    length := if ctx.reason == 4 then 3 else InstructionLength(ctx);
    thread := Low32(GetAll(exit.regs, [Rcx])[0].low);
    IterateCases(p, e, m, ctx, exit, length, thread);
    InjectionResumes(p.build, e, exit, length);
  }

  /** A failed run is a fault and changes nothing, in both engines. */
  lemma FailedRun(p: Platform, o: Rec.Oracle, r: Rec.State, e: EventType, code: int)
    requires r.status.Running? && p.guest(r.machine.regs, r.machine.mem) == HostFailure(code)
    ensures Iterate(p, e, r.machine) == Iteration(Faulted(HostError(code)), r.machine)
    ensures Rec.Step(p, o, r) == r.(status := Rec.Failed(HostError(code)))
  {
  }

  /** The event the recorder owes for a handled exit. */
  function OwedEvent(o: Rec.Oracle, n: nat, reason: int, thread: u32): EventType {
    if reason == 4097 then
      var v := o.cpuid(n);
      Cpuid(v.eax, v.ebx, v.ecx, v.edx)
    else if reason == 4099 then
      var v := o.tsc(n);
      Rdtsc(v.rax, v.rdx)
    else ContextSwitch(thread)
  }

  /** The recorder does what injecting its own event does. */
  lemma StepInjects(
    p: Platform, o: Rec.Oracle, r: Rec.State, ctx: ExitContext, exit: Machine, length: byte, thread: u32)
    requires r.status.Running? && Run(p.guest, r.machine) == Ran(ctx, exit)
    requires length == (if ctx.reason == 4 then 3 else InstructionLength(ctx))
    requires thread == Low32(GetAll(exit.regs, [Rcx])[0].low)
    ensures ctx.reason !in {4, 4097, 4099} ==>
      Rec.Step(p, o, r) == Rec.State(exit, r.log, r.count, Rec.Stopped(ctx))
    ensures ctx.reason in {4, 4097, 4099} ==>
      var e := OwedEvent(o, |r.log|, ctx.reason, thread);
      Rec.Step(p, o, r) ==
      Rec.LogAndAdvance(p.build, r.log, r.count, exit.(regs := InjectedRegs(e, exit.regs)), e, length)
  {
    hide SetAll, GetAll, Rec.LogAndAdvance, Low32, InstructionLength;
  }

  /**
   One iteration of the record loop, by exit reason: CPUID, RDTSC and VMCALL are logged, numbered by
   the counter, and resumed; the event is in the log even if one of the two additions after it panics;
   any other reason ends the run with the machine as the guest left it.
   */
  lemma RecordedExit(p: Platform, o: Rec.Oracle, r: Rec.State, ctx: ExitContext, stores: Memory, exit: Machine)
    returns (length: byte, thread: u32)
    requires r.status.Running? && p.guest(r.machine.regs, r.machine.mem) == Exit(ctx, exit.regs, stores)
    requires Lands(r.machine.mem, stores, exit.mem)
    ensures ctx.reason == 4 ==> length == 3 && (exit.regs[Rcx].low - thread) % 0x1_0000_0000 == 0
    ensures ctx.reason != 4 ==> length < 16 && (ctx.bitfield - length) % 16 == 0
    ensures var r' := Rec.Step(p, o, r);
            if ctx.reason !in {4, 4097, 4099} then r' == Rec.State(exit, r.log, r.count, Rec.Stopped(ctx))
            else
              var e := OwedEvent(o, |r.log|, ctx.reason, thread);
              && r'.log == r.log + [TraceEvent(r.count, e)]
              && if p.build.Debug? && (r.count == 0xFFFF_FFFF_FFFF_FFFF
                                       || exit.regs[Rip].low + length >= 0x1_0000_0000_0000_0000)
                 then r'.status == Rec.Failed(ArithmeticOverflow)
                 else && r'.status == Rec.Running
                      && r'.count == (if r.count == 0xFFFF_FFFF_FFFF_FFFF then 0 else r.count + 1)
                      && Resumes(exit, r'.machine, length, GivenBy(e))
  {
    hide InjectedRegs, AdvanceRip, GivenBy, GetAll, Apply, InstructionLength, Low32, SetAll, Resumes;
    LandsIsApply(r.machine.mem, stores, exit.mem);
    LowHalfOfRcx(exit.regs);
    length := if ctx.reason == 4 then 3 else InstructionLength(ctx);
    thread := Low32(GetAll(exit.regs, [Rcx])[0].low);
    StepInjects(p, o, r, ctx, exit, length, thread);
    InjectionResumes(p.build, OwedEvent(o, |r.log|, ctx.reason, thread), exit, length);
  }

  // ---------------------------------------------------------------------------------------------
  // Memory is the guest's alone.

  /** Every iteration of either engine leaves memory exactly as the guest's own run left it. */
  lemma IterationLeavesMemory(p: Platform, o: Rec.Oracle, r: Rec.State, e: EventType)
    requires r.status.Running?
    ensures var ran := Run(p.guest, r.machine);
            && Rec.Step(p, o, r).machine.mem == (if ran.Ran? then ran.machine.mem else r.machine.mem)
            && Iterate(p, e, r.machine).machine.mem == (if ran.Ran? then ran.machine.mem else r.machine.mem)
  {
    hide SetAll, GetAll;
  }

  /** The set of mapped addresses is the same in every state of a recording. */
  lemma {:induction false} MappedAddressesStay(p: Platform, o: Rec.Oracle, m: Machine, n: nat)
    ensures Rec.After(p, o, m, n).machine.mem.Keys == m.mem.Keys
  {
    hide Rec.Step;
    if n > 0 {
      MappedAddressesStay(p, o, m, n - 1);
      var prev := Rec.After(p, o, m, n - 1);
      Rec.AfterSucc(p, o, m, n);
      if prev.status.Running? {
        IterationLeavesMemory(p, o, prev, ContextSwitch(0));
      } else {
        Rec.StoppedStays(p, o, prev);
      }
    }
  }

  lemma IterationKeepsAddresses(p: Platform, e: EventType, m: Machine)
    ensures Iterate(p, e, m).machine.mem.Keys == m.mem.Keys
  {
    hide SetAll, GetAll;
  }

  lemma {:induction false} LoopKeepsAddresses(p: Platform, e: EventType, m: Machine, k: nat)
    ensures Loop(p, e, m, k).machine.mem.Keys == m.mem.Keys
  {
    hide Iterate;
    if k > 0 {
      LoopKeepsAddresses(p, e, m, k - 1);
      IterationKeepsAddresses(p, e, Loop(p, e, m, k - 1).machine);
    }
  }

  /** The set of mapped addresses is the same throughout the replay of any trace. */
  lemma {:induction false} ReplayKeepsAddresses(p: Platform, events: seq<TraceEvent>, m: Machine)
    requires ReplayTrace(p, events, m).Replayed?
    ensures ReplayTrace(p, events, m).machine.mem.Keys == m.mem.Keys
    decreases |events|
  {
    hide Loop;
    if events != [] {
      var n := |events| - 1;
      ReplayKeepsAddresses(p, events[..n], m);
      var prev := ReplayTrace(p, events[..n], m).machine;
      LoopKeepsAddresses(p, events[n].event, prev, ReplayEvent(p, events[n].event, prev).iterations);
    }
  }

  /**
   The engines never write guest memory. Whenever a running recorder enters the guest and the guest
   exits, be it for another event or for good, memory changes by exactly the stores of that run;
   the replay of the log so far is in the same state, so its next run stores the same; and no
   logged event is one whose injection would reach the memory-writing stub.
   */
  lemma MemoryBelongsToTheGuest(p: Platform, o: Rec.Oracle, m: Machine, k: nat)
    requires Rec.After(p, o, m, k).status.Running?
    requires var before := Rec.After(p, o, m, k).machine; p.guest(before.regs, before.mem).Exit?
    ensures var before, after := Rec.After(p, o, m, k), Rec.After(p, o, m, k + 1);
            var stores := p.guest(before.machine.regs, before.machine.mem).stores;
            && after.machine.mem == Apply(before.machine.mem, stores)
            && ReplayTrace(p, before.log, m).Replayed? && ReplayTrace(p, before.log, m).machine == before.machine
            && (after.status.Running? ==>
                 ReplayTrace(p, after.log, m).Replayed?
                 && ReplayTrace(p, after.log, m).machine.mem == Apply(before.machine.mem, stores))
            && (forall i :: 0 <= i < |after.log| ==> !after.log[i].event.Syscall?)
  {
    hide Rec.Step, Iterate, ReplayTrace, Rec.After;
    var before, after := Rec.After(p, o, m, k), Rec.After(p, o, m, k + 1);
    Rec.RunningPrefix(p, o, m, k, k);
    Prefix(p, o, m, k, k);
    assert before.log[..k] == before.log;
    Rec.AfterSucc(p, o, m, k + 1);
    IterationLeavesMemory(p, o, before, ContextSwitch(0));
    if after.status.Running? {
      Rec.RunningPrefix(p, o, m, k + 1, k + 1);
      Prefix(p, o, m, k + 1, k + 1);
      assert after.log[..k + 1] == after.log;
    }
    forall i | 0 <= i < |after.log| ensures !after.log[i].event.Syscall? {
      LogIsFaithful(p, o, m, k + 1, i);
    }
  }

  // ---------------------------------------------------------------------------------------------
  // Progress, and the one way to lose it.

  /** The machine after `k` runs with no intervention of the host in between. */
  function Unassisted(p: Platform, m: Machine, k: nat): Option<Machine> {
    if k == 0 then Some(m)
    else
      match Unassisted(p, m, k - 1)
      case None => None
      case Some(m') =>
        match Run(p.guest, m')
        case RunFailed(_) => None
        case Ran(_, m'') => Some(m'')
  }

  /** The `k`-th unassisted run ends in an intercept that the event at hand does not describe. */
  predicate WrongIntercept(p: Platform, e: EventType, m: Machine, k: nat) {
    match Unassisted(p, m, k)
    case None => false
    case Some(m') =>
      match Run(p.guest, m')
      case RunFailed(_) => false
      case Ran(ctx, _) =>
        || (ctx.reason == EXIT_CPUID && !e.Cpuid?)
        || (ctx.reason == EXIT_RDTSC && !e.Rdtsc?)
  }

  lemma SpinStep(p: Platform, e: EventType, m: Machine)
    ensures Iterate(p, e, m).outcome.Spinning? <==>
            (var ran := Run(p.guest, m);
             && ran.Ran?
             && ((ran.ctx.reason == EXIT_CPUID && !e.Cpuid?) || (ran.ctx.reason == EXIT_RDTSC && !e.Rdtsc?)))
    ensures Iterate(p, e, m).outcome.Spinning? ==> Run(p.guest, m).machine == Iterate(p, e, m).machine
  {
  }

  lemma {:induction false} SpinningMeansUnassisted(p: Platform, e: EventType, m: Machine, k: nat)
    ensures Loop(p, e, m, k).outcome.Spinning? <==> forall j: nat :: j < k ==> WrongIntercept(p, e, m, j)
    ensures Loop(p, e, m, k).outcome.Spinning? ==> Unassisted(p, m, k) == Some(Loop(p, e, m, k).machine)
  {
    hide Iterate, Run;
    if k > 0 {
      SpinningMeansUnassisted(p, e, m, k - 1);
      if Loop(p, e, m, k - 1).outcome.Spinning? {
        SpinStep(p, e, Loop(p, e, m, k - 1).machine);
        assert Loop(p, e, m, k).outcome.Spinning? <==> WrongIntercept(p, e, m, k - 1);
      }
    }
  }

  /** A `replay_event` call hangs exactly when every unassisted run ends in a wrong intercept. */
  lemma DivergesIff(p: Platform, e: EventType, m: Machine)
    ensures ReplayEvent(p, e, m).Diverges? <==> forall k: nat :: WrongIntercept(p, e, m, k)
  {
    if k: nat :| !WrongIntercept(p, e, m, k) {
      SpinningMeansUnassisted(p, e, m, k + 1);
      ReplayEventIs(p, e, m, k + 1);
    } else {
      forall k ensures !ReturnsAt(p, e, m, k) {
        SpinningMeansUnassisted(p, e, m, k);
      }
    }
  }

  /** Any other call takes one iteration per wrong intercept and ends with the first run that is none. */
  lemma ReturnsAfterWrongIntercepts(p: Platform, e: EventType, m: Machine, k: nat)
    requires (forall j: nat :: j < k ==> WrongIntercept(p, e, m, j)) && !WrongIntercept(p, e, m, k)
    ensures Unassisted(p, m, k).Some?
    ensures var last := Iterate(p, e, Unassisted(p, m, k).value);
            ReplayEvent(p, e, m) == Returned(last.outcome, last.machine, k + 1)
  {
    hide Iterate, WrongIntercept, Unassisted, ReplayEvent;
    SpinningMeansUnassisted(p, e, m, k);
    SpinningMeansUnassisted(p, e, m, k + 1);
    ReplayEventIs(p, e, m, k + 1);
    ReturnsOnce(p, e, m, k + 1, ReplayEvent(p, e, m).iterations);
  }

  /** Running again from where a run stopped raises the same exit and changes nothing. */
  ghost predicate ReRaises(p: Platform, m: Machine) {
    var ran := Run(p.guest, m);
    ran.Ran? && Run(p.guest, ran.machine) == ran
  }

  lemma {:induction false} ReRaisedForever(p: Platform, m: Machine, k: nat)
    requires k > 0 && ReRaises(p, m)
    ensures Unassisted(p, m, k) == Some(Run(p.guest, m).machine)
  {
    if k == 1 {
      assert Unassisted(p, m, 0) == Some(m);
    } else {
      ReRaisedForever(p, m, k - 1);
    }
  }

  /** On a guest that re-raises an unadvanced intercept, one wrong intercept hangs replay for good. */
  lemma WrongInterceptHangs(p: Platform, e: EventType, m: Machine)
    requires ReRaises(p, m)
    ensures ReplayEvent(p, e, m).Diverges? <==> Iterate(p, e, m).outcome.Spinning?
  {
    DivergesIff(p, e, m);
    SpinStep(p, e, m);
    assert Unassisted(p, m, 0) == Some(m);
    assert WrongIntercept(p, e, m, 0) <==> Iterate(p, e, m).outcome.Spinning?;
    forall k: nat ensures WrongIntercept(p, e, m, k) == WrongIntercept(p, e, m, 0) {
      if k > 0 { ReRaisedForever(p, m, k); }
    }
  }

  /** A guest that does nothing but raise CPUID. */
  function CpuidGuest(): Guest {
    (regs: RegFile, mem: Memory) => Exit(ExitContext(EXIT_CPUID, 2), regs, map[])
  }

  /** On that guest, from any machine, replaying any event of another kind never returns. */
  lemma CpuidGuestHangs(build: Build, e: EventType, m: Machine)
    ensures ReplayEvent(Platform(CpuidGuest(), build), e, m).Diverges? <==> !e.Cpuid?
  {
    var p := Platform(CpuidGuest(), build);
    assert Apply(m.mem, map[]) == m.mem;
    WrongInterceptHangs(p, e, m);
    SpinStep(p, e, m);
  }

  // ---------------------------------------------------------------------------------------------
  // The converse: what replays faithfully is what could have been recorded.

  ghost predicate SameEvents(a: seq<TraceEvent>, b: seq<TraceEvent>) {
    |a| == |b| && forall i :: 0 <= i < |a| ==> a[i].event == b[i].event
  }

  /** Replay depends on event kinds and payloads only, never on `instructionCount`. */
  lemma {:induction false} CountsAreIgnored(p: Platform, a: seq<TraceEvent>, b: seq<TraceEvent>, m: Machine)
    requires SameEvents(a, b)
    ensures ReplayTrace(p, a, m) == ReplayTrace(p, b, m)
    decreases |a|
  {
    hide ReplayEvent;
    if a != [] { CountsAreIgnored(p, a[..|a| - 1], b[..|b| - 1], m); }
  }

  /** The oracle that hands out the values of a given trace. */
  function OracleOf(events: seq<TraceEvent>): Rec.Oracle {
    Rec.Oracle(
      (i: nat) =>
        if i < |events| && events[i].event.Cpuid? then
          var e := events[i].event;
          Rec.CpuidValues(e.eax, e.ebx, e.ecx, e.edx)
        else Rec.CpuidValues(0, 0, 0, 0),
      (i: nat) =>
        if i < |events| && events[i].event.Rdtsc? then Rec.TscValues(events[i].event.tscRax, events[i].event.tscRdx)
        else Rec.TscValues(0, 0))
  }

  /** An injecting iteration is one the recorder would have made, logging that very event. */
  lemma InjectedIsRecordable(p: Platform, o: Rec.Oracle, r: Rec.State, e: EventType)
    requires r.status.Running? && Supplies(o, |r.log|, e)
    requires AddU64(p.build, r.count, 1).Some?
    requires Iterate(p, e, r.machine).outcome == Injected
    ensures var r' := Rec.Step(p, o, r);
            && r'.status.Running? && r'.machine == Iterate(p, e, r.machine).machine
            && r'.log == r.log + [TraceEvent(r.count, e)]
            && AddU64(p.build, r.count, 1) == Some(r'.count)
  {
  }

  lemma {:induction false} IterationsAtLeast(p: Platform, events: seq<TraceEvent>, m: Machine)
    ensures var r := ReplayTrace(p, events, m);
            r.Replayed? ==> |r.outcomes| == |events| <= r.iterations
    decreases |events|
  {
    if events != [] {
      var init := events[..|events| - 1];
      IterationsAtLeast(p, init, m);
      var prev := ReplayTrace(p, init, m);
      if prev.Replayed? {
        var call := ReplayEvent(p, events[|events| - 1].event, prev.machine);
        assert call.Returned? ==> ReturnsAt(p, events[|events| - 1].event, prev.machine, call.iterations);
      }
    }
  }

  /** A faithful replay of a trace is a faithful replay of all but its last event, then one injection. */
  lemma FaithfulSplit(p: Platform, events: seq<TraceEvent>, m: Machine)
    requires events != [] && Faithful(p, events, m)
    ensures var init, e := events[..|events| - 1], events[|events| - 1].event;
            && Faithful(p, init, m)
            && Iterate(p, e, ReplayTrace(p, init, m).machine) ==
               Iteration(Injected, ReplayTrace(p, events, m).machine)
  {
    var init, e := events[..|events| - 1], events[|events| - 1].event;
    var r, prev := ReplayTrace(p, events, m), ReplayTrace(p, init, m);
    var call := ReplayEvent(p, e, prev.machine);
    assert r.outcomes == prev.outcomes + [call.outcome] && r.iterations == prev.iterations + call.iterations;
    IterationsAtLeast(p, init, m);
    assert forall i :: 0 <= i < |init| ==> prev.outcomes[i] == r.outcomes[i];
    assert r.outcomes[|init|] == call.outcome;
    assert ReturnsAt(p, e, prev.machine, call.iterations);
    assert call.iterations == 1;
    assert Loop(p, e, prev.machine, 0) == Iteration(Spinning, prev.machine);
    assert Loop(p, e, prev.machine, 1) == Iterate(p, e, prev.machine);
  }

  lemma NothingReplayed(p: Platform, o: Rec.Oracle, events: seq<TraceEvent>, m: Machine)
    requires events == []
    ensures Rec.After(p, o, m, 0) == Rec.Start(m) && ReplayTrace(p, events, m) == Replayed(m, [], 0)
  {
  }

  /** The event counter of a debug build reaches `n` without the overflow panic. */
  predicate Countable(build: Build, n: nat) {
    build.Debug? ==> n < TWO_64
  }

  /**
   Converse of lockstep: a trace that replays faithfully is, up to `instructionCount`, exactly the
   log of a recorder that is handed the trace's values, and both end in the same state.
   */
  lemma {:induction false} Converse(p: Platform, o: Rec.Oracle, events: seq<TraceEvent>, m: Machine)
    requires Faithful(p, events, m) && Countable(p.build, |events|)
    requires forall i :: 0 <= i < |events| ==> Supplies(o, i, events[i].event)
    ensures var r := Rec.After(p, o, m, |events|);
            && r.status.Running? && r.count == Low64(|events|)
            && r.machine == ReplayTrace(p, events, m).machine
            && SameEvents(r.log, events)
    decreases |events|
  {
    hide Rec.Step, Iterate, ReplayTrace, Faithful, Rec.After;
    if events == [] {
      NothingReplayed(p, o, events, m);
    } else {
      var n := |events| - 1;
      FaithfulSplit(p, events, m);
      Converse(p, o, events[..n], m);
      Rec.AfterSucc(p, o, m, |events|);
      InjectedIsRecordable(p, o, Rec.After(p, o, m, n), events[n].event);
    }
  }

  /** Some source of values makes the recorder log the trace, up to instruction counts. */
  ghost predicate Recordable(p: Platform, events: seq<TraceEvent>, m: Machine) {
    exists o :: Rec.After(p, o, m, |events|).status.Running?
                && SameEvents(Rec.After(p, o, m, |events|).log, events)
  }

  lemma RecordedIsFaithful(p: Platform, o: Rec.Oracle, events: seq<TraceEvent>, m: Machine)
    requires Rec.After(p, o, m, |events|).status.Running? && SameEvents(Rec.After(p, o, m, |events|).log, events)
    ensures Faithful(p, events, m) && Countable(p.build, |events|)
  {
    hide Rec.After, ReplayTrace;
    var log := Rec.After(p, o, m, |events|).log;
    Prefix(p, o, m, |events|, |events|);
    CountIsLength(p, o, m, |events|);
    assert log[..|events|] == log;
    CountsAreIgnored(p, log, events, m);
  }

  /** Faithful replay of a countable trace and recordability are the same property. */
  lemma FaithfulIffRecordable(p: Platform, events: seq<TraceEvent>, m: Machine)
    ensures Recordable(p, events, m) <==> Faithful(p, events, m) && Countable(p.build, |events|)
  {
    hide Rec.After, Faithful, Countable;
    if Faithful(p, events, m) && Countable(p.build, |events|) {
      Converse(p, OracleOf(events), events, m);
    }
    forall o | Rec.After(p, o, m, |events|).status.Running? && SameEvents(Rec.After(p, o, m, |events|).log, events)
      ensures Faithful(p, events, m) && Countable(p.build, |events|)
    {
      RecordedIsFaithful(p, o, events, m);
    }
  }

  // ---------------------------------------------------------------------------------------------
  // Injection after a spin, which the recorder never does.

  /** A call takes one iteration exactly when its first iteration does not spin. */
  lemma OneIterationIff(p: Platform, e: EventType, m: Machine)
    requires ReplayEvent(p, e, m).Returned?
    ensures ReplayEvent(p, e, m).iterations >= 1
    ensures ReplayEvent(p, e, m).iterations == 1 <==> !Iterate(p, e, m).outcome.Spinning?
  {
    hide Iterate;
    var k := ReplayEvent(p, e, m).iterations;
    assert ReturnsAt(p, e, m, k);
    assert Loop(p, e, m, 0) == Iteration(Spinning, m);
    assert Loop(p, e, m, 1) == Iterate(p, e, m);
    if !Iterate(p, e, m).outcome.Spinning? {
      assert ReturnsAt(p, e, m, 1);
      ReturnsOnce(p, e, m, k, 1);
    }
  }

  /** The machine before event `i` of a trace. */
  ghost function Before(p: Platform, events: seq<TraceEvent>, m: Machine, i: nat): Machine
    requires i <= |events| && ReplayTrace(p, events[..i], m).Replayed?
  {
    ReplayTrace(p, events[..i], m).machine
  }

  lemma {:induction false} PrefixReplayed(p: Platform, events: seq<TraceEvent>, m: Machine, i: nat)
    requires i <= |events| && ReplayTrace(p, events, m).Replayed?
    ensures ReplayTrace(p, events[..i], m).Replayed?
    ensures i < |events| ==> ReplayEvent(p, events[i].event, ReplayTrace(p, events[..i], m).machine).Returned?
    decreases |events|
  {
    hide ReplayEvent;
    var n := |events|;
    if i == n {
      assert events[..i] == events;
    } else if i < n - 1 {
      assert events[..n - 1][..i] == events[..i];
      PrefixReplayed(p, events[..n - 1], m, i);
    }
  }

  /** No call of the replay spun in its first iteration. */
  ghost predicate NeverSpins(p: Platform, events: seq<TraceEvent>, m: Machine) {
    forall i :: 0 <= i < |events| && ReplayTrace(p, events[..i], m).Replayed? ==>
      !Iterate(p, events[i].event, Before(p, events, m, i)).outcome.Spinning?
  }

  /** Iterations and events are equal in number exactly when no call spins first. */
  lemma {:induction false} CountsAgreeIff(p: Platform, events: seq<TraceEvent>, m: Machine)
    requires ReplayTrace(p, events, m).Replayed?
    ensures ReplayTrace(p, events, m).iterations == |events| <==> NeverSpins(p, events, m)
    decreases |events|
  {
    hide ReplayEvent, Iterate;
    if events != [] {
      var n := |events| - 1;
      var init := events[..n];
      PrefixReplayed(p, events, m, n);
      CountsAgreeIff(p, init, m);
      IterationsAtLeast(p, init, m);
      var prev := ReplayTrace(p, init, m);
      OneIterationIff(p, events[n].event, prev.machine);
      assert forall i :: 0 <= i < n ==> init[..i] == events[..i];
      assert NeverSpins(p, events, m) <==>
        NeverSpins(p, init, m) && !Iterate(p, events[n].event, prev.machine).outcome.Spinning?;
    }
  }

  /** An intercept that the host does not advance past is raised again, with nothing changed. */
  ghost predicate ReRaisesIntercepts(p: Platform, m: Machine) {
    var ran := Run(p.guest, m);
    ran.Ran? && (ran.ctx.reason == EXIT_CPUID || ran.ctx.reason == EXIT_RDTSC) ==> Run(p.guest, ran.machine) == ran
  }

  /**
   On a guest that re-raises the intercepts it meets, injecting every event at all is the same as
   injecting each on its first iteration.
   */
  lemma InjectedIffFaithful(p: Platform, events: seq<TraceEvent>, m: Machine)
    requires forall i :: 0 <= i < |events| && ReplayTrace(p, events[..i], m).Replayed? ==>
      ReRaisesIntercepts(p, Before(p, events, m, i))
    ensures AllInjected(p, events, m) <==> Faithful(p, events, m)
  {
    hide ReplayEvent, Iterate, Run, ReplayTrace;
    if AllInjected(p, events, m) {
      forall i | 0 <= i < |events| && ReplayTrace(p, events[..i], m).Replayed?
        ensures !Iterate(p, events[i].event, Before(p, events, m, i)).outcome.Spinning?
      {
        PrefixReplayed(p, events, m, i);
        var e, before := events[i].event, Before(p, events, m, i);
        SpinStep(p, e, before);
        if ReRaises(p, before) { WrongInterceptHangs(p, e, before); }
      }
      CountsAgreeIff(p, events, m);
    }
  }

  /** So for such guests replay by injection and recordability coincide. */
  lemma InjectedIffRecordable(p: Platform, events: seq<TraceEvent>, m: Machine)
    requires forall i :: 0 <= i < |events| && ReplayTrace(p, events[..i], m).Replayed? ==>
      ReRaisesIntercepts(p, Before(p, events, m, i))
    ensures Recordable(p, events, m) <==> AllInjected(p, events, m) && Countable(p.build, |events|)
  {
    hide Recordable, AllInjected, Faithful, ReRaisesIntercepts;
    InjectedIffFaithful(p, events, m);
    FaithfulIffRecordable(p, events, m);
  }

  /** A guest whose CPUID intercept, left alone, is followed by an RDTSC intercept. */
  function FickleGuest(): Guest {
    (regs: RegFile, mem: Memory) =>
      if regs[Rax].low == 0 then Exit(ExitContext(EXIT_CPUID, 2), regs[Rax := Reg64(1)], map[])
      else Exit(ExitContext(EXIT_RDTSC, 2), regs, map[])
  }

  /** Left alone at its CPUID intercept the guest goes on to RDTSC, where the event is injected. */
  lemma FickleIteration(e: EventType, m: Machine)
    requires e.Rdtsc?
    ensures var r := Iterate(Platform(FickleGuest(), Release), e, m);
            if m.regs[Rax].low == 0 then r.outcome.Spinning? && r.machine.regs[Rax].low == 1 else r.outcome == Injected
  {
    hide SetAll, InjectedRegs, GetAll;
  }

  lemma FickleReplay(m: Machine)
    requires m.regs[Rax].low == 0
    ensures var p, e := Platform(FickleGuest(), Release), Rdtsc(7, 7);
            ReplayEvent(p, e, m).Returned? && ReplayEvent(p, e, m).outcome == Injected
            && ReplayEvent(p, e, m).iterations == 2
  {
    hide Iterate, ReplayEvent;
    var p, e := Platform(FickleGuest(), Release), Rdtsc(7, 7);
    FickleIteration(e, m);
    FickleIteration(e, Iterate(p, e, m).machine);
    assert Loop(p, e, m, 0) == Iteration(Spinning, m);
    assert Loop(p, e, m, 1) == Iterate(p, e, m);
    assert Loop(p, e, m, 2) == Iterate(p, e, Iterate(p, e, m).machine);
    ReplayEventIs(p, e, m, 2);
    OneIterationIff(p, e, m);
  }

  /** The recorder never gets past the CPUID intercept without logging it. */
  lemma FickleRecording(o: Rec.Oracle, m: Machine, n: nat)
    requires m.regs[Rax].low == 0
    ensures var log := Rec.After(Platform(FickleGuest(), Release), o, m, n).log; |log| > 0 ==> log[0].event.Cpuid?
  {
    hide Rec.Step, Supplies;
    var p := Platform(FickleGuest(), Release);
    if |Rec.After(p, o, m, n).log| > 0 {
      LogIsFaithful(p, o, m, n, 0);
    }
  }

  /**
   For other guests they do not coincide: this trace is replayed by injection, after one spin, and
   no recorder ever logs it.
   */
  lemma SpunInjectionIsNotRecorded(o: Rec.Oracle, m: Machine, n: nat)
    requires m.regs[Rax].low == 0
    ensures var p, events := Platform(FickleGuest(), Release), [TraceEvent(0, Rdtsc(7, 7))];
            && AllInjected(p, events, m)
            && ReplayTrace(p, events, m).iterations == 2
            && !SameEvents(Rec.After(p, o, m, n).log, events)
  {
    hide ReplayEvent, Rec.After, FickleGuest;
    var p, events := Platform(FickleGuest(), Release), [TraceEvent(0, Rdtsc(7, 7))];
    FickleReplay(m);
    FickleRecording(o, m, n);
    assert events[..0] == [];
    assert ReplayTrace(p, events[..0], m) == Replayed(m, [], 0);
  }
}
