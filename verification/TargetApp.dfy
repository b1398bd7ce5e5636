/**
 The demonstration guest: two simulated threads that increment a shared counter and yield to the
 hypervisor between the read and the write. It is one instance of the arbitrary guest, with the
 loop count a parameter; the shipped program runs 100 rounds.
 */
module TargetApp {
  import opened Words
  import opened Trace
  import opened GuestMachine
  import opened GuestMemory
  import opened Paging
  import Rec = Recorder
  import Rep = Replayer
  import Lockstep
  import opened Layout
  import Pipeline

  // ---------------------------------------------------------------------------------------------
  // The program as written.

  /** Threads 0 and 1 in turn. */
  function Alternating(k: nat): seq<u32> {
    seq(k, (j: nat) => j % 2)
  }

  class App {
    var counter: u64
    var switches: seq<u32>

    constructor ()
      ensures counter == 0 && switches == []
    {
      counter := 0;
      switches := [];
    }

    /** The hypercall: all the rest of the program sees of it is that it returns. */
    method SchedYield(threadId: u32)
      modifies this`switches
      ensures switches == old(switches) + [threadId]
    {
      switches := switches + [threadId];
    }

    method ExecuteSlice(threadId: u32)
      requires counter + 1 < TWO_64
      modifies this
      ensures counter == old(counter) + 1 && switches == old(switches) + [threadId]
    {
      var temp := counter;
      SchedYield(threadId);
      counter := temp + 1;
    }

    method Start(rounds: nat) returns (finalVal: u64)
      requires counter == 0 && switches == [] && 2 * rounds < TWO_64
      modifies this
      ensures finalVal == counter == 2 * rounds
      ensures |switches| == 2 * rounds && forall j :: 0 <= j < 2 * rounds ==> switches[j] == j % 2
    {
      for i := 0 to rounds
        invariant counter == 2 * i && switches == Alternating(2 * i)
      {
        ExecuteSlice(0);
        ExecuteSlice(1);
      }
      finalVal := counter;
    }
  }

  // ---------------------------------------------------------------------------------------------
  // The program as the processor runs it, from one exit to the next.

  const ENTRY: u64 := 0x10_1000
  const YIELD_0: u64 := 0x10_1100
  const YIELD_1: u64 := 0x10_1200
  const HALT_AT: u64 := 0x10_1300
  const COUNTER: nat := 0x10_2000

  function StoreWord(a: nat, v: u64): Memory {
    Contents(Region(a, Le(v, 8)))
  }

  /** Set up `rcx` with the thread id and stop at the `vmcall`, the value read held in `rdx`. */
  function Yield(regs: RegFile, at: u64, threadId: u64, temp: u64, stores: Memory): StepResult {
    Exit(ExitContext(EXIT_VMCALL, 0),
         regs[Rdx := Reg64(temp)][Rax := Reg64(1)][Rcx := Reg64(threadId)][Rip := Reg64(at)], stores)
  }

  /** The head of the loop: another round, or the final halt with the counter in `rax`. */
  function LoopHead(rounds: nat, regs: RegFile, round: u64, counter: u64, stores: Memory): StepResult {
    if round < rounds then
      Yield(regs[Rbx := Reg64(round)], YIELD_0, 0, counter, stores)
    else
      Exit(ExitContext(EXIT_HALT, 0), regs[Rax := Reg64(counter)][Rip := Reg64(HALT_AT)], stores)
  }

  function RunSlice(rounds: nat, regs: RegFile, mem: Memory): StepResult {
    var rip, next := regs[Rip].low, Low64(regs[Rdx].low + 1);
    match ReadQword(mem, COUNTER)
    case None => Exit(ExitContext(EXIT_MEMORY_ACCESS, 0), regs, map[])
    case Some(counter) =>
      if rip == ENTRY then LoopHead(rounds, regs, 0, Low64(counter), map[])
      else if rip == YIELD_0 + 3 then Yield(regs, YIELD_1, 1, next, StoreWord(COUNTER, next))
      else if rip == YIELD_1 + 3 then
        LoopHead(rounds, regs, Low64(regs[Rbx].low + 1), next, StoreWord(COUNTER, next))
      else Exit(ExitContext(EXIT_HALT, 0), regs, map[])
  }

  function Guest(rounds: nat): GuestMachine.Guest {
    (regs: RegFile, mem: Memory) => RunSlice(rounds, regs, mem)
  }

  lemma {:induction false} LoadAfterStore(mem: Memory, stores: Memory, bytes: seq<byte>, a: nat, n: nat)
    requires Load(mem, a, n).Some? && |bytes| == n
    requires forall x: nat :: a <= x < a + n ==> x in stores && stores[x] == bytes[x - a]
    ensures Load(Apply(mem, stores), a, n) == Some(bytes)
    decreases n
  {
    if n > 0 {
      LoadAfterStore(mem, stores, bytes[1..], a + 1, n - 1);
      assert bytes == [bytes[0]] + bytes[1..];
    }
  }

  lemma ReadBack(mem: Memory, v: u64)
    requires ReadQword(mem, COUNTER).Some?
    ensures ReadQword(Apply(mem, StoreWord(COUNTER, v)), COUNTER) == Some(v)
  {
    hide Load, FromLe, Le;
    LoadAfterStore(mem, StoreWord(COUNTER, v), Le(v, 8), COUNTER, 8);
    Pow256Values();
    FromLeOfLe(v, 8);
  }

  lemma ApplyNothing(mem: Memory)
    ensures Apply(mem, map[]) == mem
  {
  }

  /** The guest as loaded: about to start, with a mapped counter that holds zero. */
  ghost predicate Loaded(m: Machine) {
    m.regs[Rip].low == ENTRY && ReadQword(m.mem, COUNTER) == Some(0)
  }

  /** The guest after `k` yields have been recorded. */
  ghost predicate Suspended(k: nat, m: Machine) {
    && ReadQword(m.mem, COUNTER) == Some(if k == 0 then 0 else k - 1)
    && (k == 0 ==> m.regs[Rip].low == ENTRY)
    && (k > 0 ==>
         && m.regs[Rip].low == (if k % 2 == 1 then YIELD_0 else YIELD_1) + 3
         && m.regs[Rdx].low == k - 1
         && m.regs[Rbx].low == (k - 1) / 2)
  }

  lemma YieldExit(rounds: nat, m: Machine, k: nat)
    requires k < 2 * rounds && 2 * rounds < TWO_64 && Suspended(k, m)
    ensures var ran := Run(Guest(rounds), m);
            && ran.Ran? && ran.ctx.reason == EXIT_VMCALL
            && ran.machine.regs[Rcx].low == k % 2
            && ran.machine.regs[Rip].low == (if k % 2 == 0 then YIELD_0 else YIELD_1)
            && ran.machine.regs[Rdx].low == k && ran.machine.regs[Rbx].low == k / 2
            && ReadQword(ran.machine.mem, COUNTER) == Some(k)
  {
    hide ReadQword, StoreWord, Apply;
    ApplyNothing(m.mem);
    ReadBack(m.mem, k);
  }

  lemma HaltExit(rounds: nat, m: Machine)
    requires 2 * rounds < TWO_64 && Suspended(2 * rounds, m)
    ensures var ran := Run(Guest(rounds), m);
            && ran.Ran? && ran.ctx.reason == EXIT_HALT && ran.machine.regs[Rax].low == 2 * rounds
            && ReadQword(ran.machine.mem, COUNTER) == Some(2 * rounds)
  {
    hide ReadQword, StoreWord, Apply;
    ApplyNothing(m.mem);
    ReadBack(m.mem, 2 * rounds);
  }

  /** One recorded yield takes the guest from `k` to `k + 1` yields and logs the thread's id. */
  lemma RecordsYield(rounds: nat, build: Build, o: Rec.Oracle, r: Rec.State, k: nat)
    requires k < 2 * rounds && 2 * rounds < TWO_64
    requires r.status.Running? && r.count == k && Suspended(k, r.machine)
    ensures var r' := Rec.Step(Platform(Guest(rounds), build), o, r);
            && r'.status.Running? && r'.count == k + 1 && Suspended(k + 1, r'.machine)
            && r'.log == r.log + [TraceEvent(k, ContextSwitch(k % 2))]
  {
    hide ReadQword, Guest, AdvanceRip;
    var p := Platform(Guest(rounds), build);
    YieldExit(rounds, r.machine, k);
    var m := Run(p.guest, r.machine).machine;
    AdvanceRipExact(build, m, 3);
    assert GetAll(m.regs, [Rcx])[0] == m.regs[Rcx];
    assert ContextSwitch(Low32(m.regs[Rcx].low)) == ContextSwitch(k % 2);
  }

  /** The log of the first `k` yields: the thread ids of the program as written, numbered in order. */
  function YieldLog(k: nat): (log: seq<TraceEvent>)
    requires k <= TWO_64
    ensures |log| == k
  {
    seq(k, (j: nat) requires j < k => TraceEvent(j, ContextSwitch(Alternating(k)[j])))
  }

  lemma YieldLogAt(k: nat, j: nat)
    requires j < k <= TWO_64
    ensures YieldLog(k)[j] == TraceEvent(j, ContextSwitch(j % 2))
  {
    assert Alternating(k)[j] == j % 2;
  }

  lemma YieldLogGrows(k: nat)
    requires k < TWO_64
    ensures YieldLog(k + 1) == YieldLog(k) + [TraceEvent(k, ContextSwitch(k % 2))]
  {
    var longer, shorter := YieldLog(k + 1), YieldLog(k);
    forall j: nat | j < k ensures longer[j] == shorter[j] {
      assert Alternating(k + 1)[j] == Alternating(k)[j];
    }
    assert longer[k] == TraceEvent(k, ContextSwitch(Alternating(k + 1)[k]));
    assert longer == shorter + [longer[k]];
  }

  lemma {:induction false} RecordsAll(rounds: nat, build: Build, o: Rec.Oracle, m: Machine, k: nat)
    requires k <= 2 * rounds && 2 * rounds < TWO_64 && Loaded(m)
    ensures var r := Rec.After(Platform(Guest(rounds), build), o, m, k);
            r.status.Running? && r.count == k && Suspended(k, r.machine) && r.log == YieldLog(k)
  {
    hide Rec.Step, ReadQword;
    if k > 0 {
      RecordsAll(rounds, build, o, m, k - 1);
      var p := Platform(Guest(rounds), build);
      Rec.AfterSucc(p, o, m, k);
      RecordsYield(rounds, build, o, Rec.After(p, o, m, k - 1), k - 1);
      YieldLogGrows(k - 1);
    }
  }

  /** At every yield the increment is pending: the counter in memory is one behind the yields. */
  lemma IncrementIsPending(rounds: nat, build: Build, o: Rec.Oracle, m: Machine, k: nat)
    requires 0 < k <= 2 * rounds && 2 * rounds < TWO_64 && Loaded(m)
    ensures ReadQword(Rec.After(Platform(Guest(rounds), build), o, m, k).machine.mem, 0x10_2000) == Some(k - 1)
  {
    hide ReadQword, Rec.After;
    RecordsAll(rounds, build, o, m, k);
  }

  lemma StopsAtHalt(p: Platform, o: Rec.Oracle, r: Rec.State)
    requires r.status.Running? && Run(p.guest, r.machine).Ran? && Run(p.guest, r.machine).ctx.reason == EXIT_HALT
    ensures var ran := Run(p.guest, r.machine);
            Rec.Step(p, o, r) == r.(machine := ran.machine, status := Rec.Stopped(ran.ctx))
  {
  }

  /**
   Recording the demonstration guest: for any number of rounds it logs two context switches per
   round, of threads 0 and 1 in turn, and halts with twice the number of rounds in RAX and in the
   counter; and its replay reaches that same halt.
   */
  lemma Demonstration(rounds: nat, build: Build, o: Rec.Oracle, m: Machine)
    requires 2 * rounds < TWO_64 && Loaded(m)
    ensures var p := Platform(Guest(rounds), build);
            var final := Rec.After(p, o, m, 2 * rounds + 1);
            && final.status.Stopped? && final.status.ctx.reason == 8
            && |final.log| == 2 * rounds
            && (forall j :: 0 <= j < 2 * rounds ==> final.log[j] == TraceEvent(j, ContextSwitch(j % 2)))
            && final.log == YieldLog(2 * rounds)
            && final.machine.regs[Rax].low == 2 * rounds
            && ReadQword(final.machine.mem, COUNTER) == Some(2 * rounds)
            && Rep.Faithful(p, final.log, m)
            && Run(p.guest, Rep.ReplayTrace(p, final.log, m).machine) == Ran(final.status.ctx, final.machine)
  {
    hide Rec.Step, ReadQword, Rec.After, Guest, Rep.ReplayTrace, Rep.Faithful, YieldLog;
    var p := Platform(Guest(rounds), build);
    var k := 2 * rounds;
    forall j | 0 <= j < k ensures YieldLog(k)[j] == TraceEvent(j, ContextSwitch(j % 2)) {
      YieldLogAt(k, j);
    }
    RecordsAll(rounds, build, o, m, k);
    var last := Rec.After(p, o, m, k);
    HaltExit(rounds, last.machine);
    Rec.AfterSucc(p, o, m, k + 1);
    StopsAtHalt(p, o, last);
    Lockstep.Determinism(p, o, m, k + 1);
  }

  /** The image holds the counter, and the counter starts at zero. */
  ghost predicate HasCounter(image: seq<byte>) {
    |image| >= 0x3000 && forall i :: 0x2000 <= i < 0x2008 ==> image[i] == 0
  }

  lemma BootsLoaded(reset: RegFile, image: seq<byte>)
    requires |image| <= MAX_IMAGE && |image| % 4096 == 0 && HasCounter(image)
    ensures Loaded(Pipeline.RecordStart(reset, 0x1000, image))
  {
    hide View, Load, FromLe, LongMode, TableBytes;
    var mem := View(Mapped(InitialBuffers(image)));
    forall x: nat | COUNTER <= x < COUNTER + 8 ensures x in mem && mem[x] == 0 {
      assert Covers(Mapped(InitialBuffers(image))[0], x);
      DisjointIff(InitialBuffers(image), |image|);
      OwnerWhenDisjoint(Mapped(InitialBuffers(image)), 0, x);
      ViewAt(Mapped(InitialBuffers(image)), x);
    }
    LoadZeros(mem, COUNTER, 8);
    var base := LongMode(reset, TABLE_BASE);
    var values := [Reg64(ENTRY), Reg64(StackBase(|image|) + STACK_SIZE)];
    assert [Rip, Rsp][..1] == [Rip] && values[..1] == [values[0]];
    assert SetAll(base, [Rip], [values[0]])[Rip] == values[0];
  }

  /** The whole pipeline on the demonstration guest: it stops, and its replay is verified. */
  lemma DemonstrationVerifies(
    rounds: nat, build: Build, o: Rec.Oracle, hash: seq<byte> -> u64, reset: RegFile, image: seq<byte>, order: seq<u64>)
    requires 2 * rounds < TWO_64
    requires |image| <= MAX_IMAGE && |image| % 4096 == 0 && HasCounter(image)
    requires IsOrder(order, Captured(InitialBuffers(image)).Keys)
    ensures var p := Platform(Guest(rounds), build);
            var a := Pipeline.Recording(p, o, hash, reset, 0x1000, image, 2 * rounds + 1);
            && a.events == YieldLog(2 * rounds)
            && Pipeline.Judge(p, hash, reset, a, order) == Pipeline.Compared(a.hash, a.hash)
  {
    hide Loaded, Guest, Rec.After, Pipeline.RecordStart, Pipeline.RecordInput, Pipeline.Judge, Captured, ReadQword;
    hide Rep.Faithful, Rep.ReplayTrace;
    var p := Platform(Guest(rounds), build);
    BootsLoaded(reset, image);
    Demonstration(rounds, build, o, Pipeline.RecordStart(reset, 0x1000, image));
    Pipeline.InitialShape(image);
    FittingMapsAlike(InitialBuffers(image), |image|, order);
    Pipeline.VerificationSucceeds(p, o, hash, reset, 0x1000, image, 2 * rounds + 1, order);
  }
}
