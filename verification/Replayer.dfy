/** The replay engine: one loop iteration, one `replay_event` call, and a whole replayed trace. */
module Replayer {
  import opened Words
  import opened Trace
  import opened GuestMachine

  /** How one iteration of the `replay_event` loop ended. Only `Spinning` loops again. */
  datatype Outcome =
    | Injected
    | Halted
    | WrongThread(expected: u32, actual: u32)
    | UnexpectedVmcall
    | Unhandled(reason: int)
    | Spinning
    | Faulted(fault: Fault)

  datatype Iteration = Iteration(outcome: Outcome, machine: Machine)

  /** `inject_event`: memory writes go to a stub, and a context switch injects nothing. */
  function InjectedRegs(e: EventType, regs: RegFile): RegFile {
    match e
    case Syscall(rax, _) => SetAll(regs, [Rax], [Reg64(rax)])
    case Rdtsc(rax, rdx) => SetAll(regs, [Rax, Rdx], [Reg64(rax), Reg64(rdx)])
    case Cpuid(eax, ebx, ecx, edx) =>
      SetAll(regs, [Rax, Rbx, Rcx, Rdx], [Reg64(eax), Reg64(ebx), Reg64(ecx), Reg64(edx)])
    case ContextSwitch(_) => regs
  }

  function InjectAndAdvance(build: Build, e: EventType, m: Machine, length: byte): Iteration {
    var injected := m.(regs := InjectedRegs(e, m.regs));
    match AdvanceRip(build, injected, length)
    case None => Iteration(Faulted(ArithmeticOverflow), injected)
    case Some(m') => Iteration(Injected, m')
  }

  function Iterate(p: Platform, e: EventType, m: Machine): Iteration {
    match Run(p.guest, m)
    case RunFailed(code) => Iteration(Faulted(HostError(code)), m)
    case Ran(ctx, m') =>
      if ctx.reason == EXIT_MEMORY_ACCESS || ctx.reason == EXIT_HALT then
        Iteration(Halted, m')
      else if ctx.reason == EXIT_CPUID then
        if e.Cpuid? then InjectAndAdvance(p.build, e, m', InstructionLength(ctx))
        else Iteration(Spinning, m')
      else if ctx.reason == EXIT_RDTSC then
        if e.Rdtsc? then InjectAndAdvance(p.build, e, m', InstructionLength(ctx))
        else Iteration(Spinning, m')
      else if ctx.reason == EXIT_VMCALL then
        if e.ContextSwitch? then
          var current := Low32(GetAll(m'.regs, [Rcx])[0].low);
          if current == e.nextThreadId then InjectAndAdvance(p.build, e, m', 3)
          else Iteration(WrongThread(e.nextThreadId, current), m')
        else Iteration(UnexpectedVmcall, m')
      else Iteration(Unhandled(ctx.reason), m')
  }

  /** The `replay_event` loop after at most `k` iterations. */
  function Loop(p: Platform, e: EventType, m: Machine, k: nat): Iteration {
    if k == 0 then Iteration(Spinning, m)
    else
      var prev := Loop(p, e, m, k - 1);
      if prev.outcome.Spinning? then Iterate(p, e, prev.machine) else prev
  }

  /** The loop leaves in iteration `k` and not before. */
  predicate ReturnsAt(p: Platform, e: EventType, m: Machine, k: nat) {
    k > 0 && Loop(p, e, m, k - 1).outcome.Spinning? && !Loop(p, e, m, k).outcome.Spinning?
  }

  datatype EventRun = Returned(outcome: Outcome, machine: Machine, iterations: nat) | Diverges

  /** One call of `replay_event`; `Diverges` is a call that never returns. */
  ghost function ReplayEvent(p: Platform, e: EventType, m: Machine): EventRun {
    if exists k :: ReturnsAt(p, e, m, k) then
      var k :| ReturnsAt(p, e, m, k);
      Returned(Loop(p, e, m, k).outcome, Loop(p, e, m, k).machine, k)
    else Diverges
  }

  lemma {:induction false} LoopSettles(p: Platform, e: EventType, m: Machine, j: nat, k: nat)
    requires j <= k && !Loop(p, e, m, j).outcome.Spinning?
    ensures Loop(p, e, m, k) == Loop(p, e, m, j)
    decreases k
  {
    if j < k { LoopSettles(p, e, m, j, k - 1); }
  }

  lemma {:induction false} FirstReturn(p: Platform, e: EventType, m: Machine, k: nat) returns (j: nat)
    requires !Loop(p, e, m, k).outcome.Spinning?
    ensures j <= k && ReturnsAt(p, e, m, j)
  {
    if Loop(p, e, m, k - 1).outcome.Spinning? {
      j := k;
    } else {
      j := FirstReturn(p, e, m, k - 1);
    }
  }

  lemma ReturnsOnce(p: Platform, e: EventType, m: Machine, i: nat, j: nat)
    requires ReturnsAt(p, e, m, i) && ReturnsAt(p, e, m, j)
    ensures i == j
  {
    if i < j { LoopSettles(p, e, m, i, j - 1); }
    if j < i { LoopSettles(p, e, m, j, i - 1); }
  }

  /** Whatever bound shows that the loop leaves, it shows the one result of the call. */
  lemma ReplayEventIs(p: Platform, e: EventType, m: Machine, k: nat)
    requires !Loop(p, e, m, k).outcome.Spinning?
    ensures ReplayEvent(p, e, m).Returned?
    ensures ReplayEvent(p, e, m).outcome == Loop(p, e, m, k).outcome
    ensures ReplayEvent(p, e, m).machine == Loop(p, e, m, k).machine
    ensures 0 < ReplayEvent(p, e, m).iterations <= k
    ensures ReturnsAt(p, e, m, ReplayEvent(p, e, m).iterations)
  {
    var j := FirstReturn(p, e, m, k);
    var i := ReplayEvent(p, e, m).iterations;
    ReturnsOnce(p, e, m, i, j);
    LoopSettles(p, e, m, j, k);
  }

  datatype TraceRun =
    | Replayed(machine: Machine, outcomes: seq<Outcome>, iterations: nat)
    | Aborted(fault: Fault)
    | Hung

  /** The command-line loop over all events, each call's error being fatal. */
  ghost function ReplayTrace(p: Platform, events: seq<TraceEvent>, m: Machine): TraceRun {
    if events == [] then Replayed(m, [], 0)
    else
      match ReplayTrace(p, events[..|events| - 1], m)
      case Replayed(m', outcomes, n) => (
        match ReplayEvent(p, events[|events| - 1].event, m')
        case Diverges => Hung
        case Returned(outcome, m'', k) =>
          if outcome.Faulted? then Aborted(outcome.fault)
          else Replayed(m'', outcomes + [outcome], n + k))
      case Aborted(fault) => Aborted(fault)
      case Hung => Hung
  }

  /** Every event was taken by its injecting branch, sooner or later. */
  ghost predicate AllInjected(p: Platform, events: seq<TraceEvent>, m: Machine) {
    var r := ReplayTrace(p, events, m);
    && r.Replayed?
    && |r.outcomes| == |events|
    && forall i :: 0 <= i < |events| ==> r.outcomes[i] == Injected
  }

  /** Every event was taken by its injecting branch, on the first iteration of its own call. */
  ghost predicate Faithful(p: Platform, events: seq<TraceEvent>, m: Machine) {
    AllInjected(p, events, m) && ReplayTrace(p, events, m).iterations == |events|
  }
}
