/** The record engine's loop as a state machine; one step is one iteration of `RecordEngine::run`. */
module Recorder {
  import opened Words
  import opened Trace
  import opened GuestMachine

  datatype CpuidValues = CpuidValues(eax: u32, ebx: u32, ecx: u32, edx: u32)
  datatype TscValues = TscValues(rax: u64, rdx: u64)

  /** Where the injected values come from, indexed by the ordinal of the event they end up in. */
  datatype Oracle = Oracle(cpuid: nat -> CpuidValues, tsc: nat -> TscValues)

  /** The constants the engine ships with. */
  const SHIPPED_ORACLE: Oracle := Oracle(
    (_: nat) => CpuidValues(0xAAAA_AAAA, 0xBBBB_BBBB, 0xCCCC_CCCC, 0xDDDD_DDDD),
    (_: nat) => TscValues(0x1000, 0x0))

  datatype Status = Running | Stopped(ctx: ExitContext) | Failed(fault: Fault)

  datatype State = State(machine: Machine, log: seq<TraceEvent>, count: u64, status: Status)

  function Start(m: Machine): State {
    State(m, [], 0, Running)
  }

  const CPUID_NAMES: seq<RegName> := [Rax, Rbx, Rcx, Rdx]
  const TSC_NAMES: seq<RegName> := [Rax, Rdx]

  /** Append the event, bump the counter, move past the instruction: each `+=` may panic. */
  function LogAndAdvance(
    build: Build, log: seq<TraceEvent>, count: u64, m: Machine, event: EventType, length: byte): State
  {
    var log' := log + [TraceEvent(count, event)];
    match AddU64(build, count, 1)
    case None => State(m, log', count, Failed(ArithmeticOverflow))
    case Some(count') =>
      match AdvanceRip(build, m, length)
      case None => State(m, log', count', Failed(ArithmeticOverflow))
      case Some(m') => State(m', log', count', Running)
  }

  function Step(p: Platform, o: Oracle, r: State): State {
    if !r.status.Running? then r else
    match Run(p.guest, r.machine)
    case RunFailed(code) => r.(status := Failed(HostError(code)))
    case Ran(ctx, m) =>
      if ctx.reason == EXIT_CPUID then
        var v := o.cpuid(|r.log|);
        var regs := SetAll(m.regs, CPUID_NAMES, [Reg64(v.eax), Reg64(v.ebx), Reg64(v.ecx), Reg64(v.edx)]);
        LogAndAdvance(p.build, r.log, r.count, m.(regs := regs), Cpuid(v.eax, v.ebx, v.ecx, v.edx), InstructionLength(ctx))
      else if ctx.reason == EXIT_RDTSC then
        var v := o.tsc(|r.log|);
        var regs := SetAll(m.regs, TSC_NAMES, [Reg64(v.rax), Reg64(v.rdx)]);
        LogAndAdvance(p.build, r.log, r.count, m.(regs := regs), Rdtsc(v.rax, v.rdx), InstructionLength(ctx))
      else if ctx.reason == EXIT_VMCALL then
        var threadId := Low32(GetAll(m.regs, [Rcx])[0].low);
        LogAndAdvance(p.build, r.log, r.count, m, ContextSwitch(threadId), 3)
      else
        r.(machine := m, status := Stopped(ctx))
  }

  lemma StoppedStays(p: Platform, o: Oracle, r: State)
    requires !r.status.Running?
    ensures Step(p, o, r) == r
  {
  }

  /** The recorder after `n` iterations from any state, such as one with a log from an earlier run. */
  function From(p: Platform, o: Oracle, r: State, n: nat): State {
    if n == 0 then r else Step(p, o, From(p, o, r, n - 1))
  }

  lemma FromSucc(p: Platform, o: Oracle, r: State, n: nat)
    ensures From(p, o, r, 0) == r
    ensures n > 0 ==> From(p, o, r, n) == Step(p, o, From(p, o, r, n - 1))
  {
  }

  /** Once stopped, the final state does not depend on how many further iterations are counted. */
  lemma {:induction false} FromStopped(p: Platform, o: Oracle, r: State, k: nat, n: nat)
    requires k <= n && !From(p, o, r, k).status.Running?
    ensures From(p, o, r, n) == From(p, o, r, k)
    decreases n
  {
    hide Step;
    if k < n {
      FromStopped(p, o, r, k, n - 1);
      StoppedStays(p, o, From(p, o, r, n - 1));
    }
  }

  /** The recorder after `n` iterations from a fresh start on machine `m`. */
  function After(p: Platform, o: Oracle, m: Machine, n: nat): State {
    From(p, o, Start(m), n)
  }

  lemma AfterSucc(p: Platform, o: Oracle, m: Machine, n: nat)
    ensures After(p, o, m, 0) == Start(m)
    ensures n > 0 ==> After(p, o, m, n) == Step(p, o, After(p, o, m, n - 1))
  {
  }

  /** One iteration either appends one event, numbered by the counter, or appends nothing and ends. */
  lemma StepAppends(p: Platform, o: Oracle, r: State)
    requires r.status.Running?
    ensures var r' := Step(p, o, r);
            || (r'.log == r.log && !r'.status.Running? && r'.count == r.count)
            || (|r'.log| == |r.log| + 1 && r'.log[..|r.log|] == r.log
                && r'.log[|r.log|].instructionCount == r.count
                && (r'.status.Running? ==> AddU64(p.build, r.count, 1) == Some(r'.count)))
  {
    hide SetAll, GetAll, Run, AdvanceRip;
  }

  /** While the recorder runs, each iteration has logged exactly one event. */
  lemma {:induction false} RunningPrefix(p: Platform, o: Oracle, m: Machine, k: nat, n: nat)
    requires k <= n
    requires After(p, o, m, n).status.Running?
    ensures After(p, o, m, k).status.Running?
    ensures |After(p, o, m, n).log| == n && |After(p, o, m, k).log| == k
    ensures After(p, o, m, k).log == After(p, o, m, n).log[..k]
    decreases n
  {
    hide Step;
    if n > 0 {
      var prev, now := After(p, o, m, n - 1), After(p, o, m, n);
      AfterSucc(p, o, m, n);
      if !prev.status.Running? { StoppedStays(p, o, prev); }
      StepAppends(p, o, prev);
      if k < n {
        RunningPrefix(p, o, m, k, n - 1);
        assert now.log[..k] == now.log[..n - 1][..k];
      } else {
        RunningPrefix(p, o, m, n - 1, n - 1);
        assert now.log[..k] == now.log;
      }
    }
  }

  /** A recorder that is no longer running stopped at one particular iteration and stays put. */
  lemma {:induction false} StopPoint(p: Platform, o: Oracle, m: Machine, n: nat) returns (j: nat)
    requires !After(p, o, m, n).status.Running?
    ensures j < n && After(p, o, m, j).status.Running?
    ensures After(p, o, m, n) == After(p, o, m, j + 1)
  {
    hide Step;
    AfterSucc(p, o, m, n);
    if After(p, o, m, n - 1).status.Running? {
      j := n - 1;
    } else {
      StoppedStays(p, o, After(p, o, m, n - 1));
      j := StopPoint(p, o, m, n - 1);
    }
  }
}
