/** The mutable engine objects: snapshot, logger, recorder and replayer. */
module Engines {
  import opened Words
  import opened Trace
  import opened GuestMachine
  import opened GuestMemory
  import opened StateHash
  import opened Vmm
  import Rec = Recorder
  import Rep = Replayer

  /** Two addresses never share a buffer: each region owns its memory. */
  ghost predicate Owned(regions: map<u64, array<byte>>) {
    forall g, h :: g in regions && h in regions && g != h ==> regions[g] != regions[h]
  }

  method Copy(host: array<byte>) returns (buffer: array<byte>)
    ensures fresh(buffer) && buffer[..] == host[..]
  {
    buffer := new byte[host.Length](_ => 0);
    forall i | 0 <= i < host.Length {
      buffer[i] := host[i];
    }
  }

  lemma StreamIsHashStream(registers: seq<RegValue>, contents: RegionMap, gpas: seq<u64>)
    requires Increasing(gpas) && forall g :: g in gpas <==> g in contents
    ensures HashStream(registers, contents) == RegisterStream(registers) + RegionStream(Listed(gpas, contents))
  {
    hide RegionStream, RegisterStream;
    SortedIsUnique(gpas, Sorted(contents.Keys));
  }

  lemma EmptyRegionStream()
    ensures RegionStream([]) == []
  {
  }

  lemma AppendRegionStream(rs: seq<Region>, k: nat)
    requires k < |rs|
    ensures RegionStream(rs[..k + 1]) == RegionStream(rs[..k]) + RegionChunk(rs[k])
  {
    hide RegionChunk;
    assert rs[..k + 1][..k] == rs[..k];
  }

  lemma ChunkOf(g: u64, bytes: seq<byte>)
    ensures RegionChunk(Region(g, bytes)) == Le(g, 8) + Le(|bytes|, 8) + bytes
  {
    hide Le;
  }

  class Snapshot {
    var regions: map<u64, array<byte>>
    var registers: seq<RegValue>

    constructor ()
      ensures regions == map[] && registers == [] && Valid()
    {
      regions := map[];
      registers := [];
    }

    ghost predicate Valid()
      reads this
    {
      Owned(regions)
    }

    function Buffers(): set<array<byte>>
      reads this
    {
      set g | g in regions :: regions[g]
    }

    /** The bytes the snapshot holds right now. */
    function Contents(): RegionMap
      reads this, Buffers()
    {
      map g | g in regions :: regions[g][..]
    }

    /** Copy a host buffer into the snapshot, replacing any region captured at the same address. */
    method CaptureRegion(gpa: u64, host: array<byte>)
      requires Valid()
      modifies this
      ensures Valid() && registers == old(registers)
      ensures fresh(Buffers() - old(Buffers()))
      ensures Contents() == old(Contents())[gpa := host[..]]
    {
      ghost var before := Contents();
      var buffer := Copy(host);
      assert Contents() == before;
      regions := regions[gpa := buffer];
      assert Contents() == before[gpa := host[..]];
    }

    method CaptureRegisters(vcpu: Vcpu, names: seq<RegName>)
      modifies this
      ensures registers == GetAll(vcpu.regs, names) && regions == old(regions)
    {
      var values := new RegValue[|names|](_ => RegValue(0, 0));
      vcpu.GetRegisters(names, values);
      registers := values[..];
    }

    method FeedRegions(gpas: seq<u64>) returns (chunks: seq<byte>)
      requires forall g :: g in gpas ==> g in regions
      ensures chunks == RegionStream(Listed(gpas, Contents()))
    {
      hide RegionStream, RegionChunk, Le;
      ghost var listed := Listed(gpas, Contents());
      chunks := [];
      EmptyRegionStream();
      for k := 0 to |gpas|
        invariant listed == Listed(gpas, Contents())
        invariant chunks == RegionStream(listed[..k])
      {
        var g := gpas[k];
        chunks := chunks + (Le(g, 8) + Le(regions[g].Length, 8) + regions[g][..]);
        AppendRegionStream(listed, k);
        ChunkOf(g, regions[g][..]);
        assert listed[k] == Region(g, regions[g][..]);
      }
      assert listed[..|gpas|] == listed;
    }

    method FeedRegisters() returns (stream: seq<byte>)
      ensures stream == RegisterStream(registers)
    {
      stream := [];
      for i := 0 to |registers|
        invariant stream == RegisterStream(registers[..i])
      {
        stream := stream + Le(registers[i].low, 8);
        assert registers[..i + 1][..i] == registers[..i];
      }
      assert registers[..|registers|] == registers;
    }

    method SortedKeys() returns (gpas: seq<u64>)
      ensures Increasing(gpas) && forall g :: g in gpas <==> g in regions
    {
      gpas := [];
      var keys := regions.Keys;
      while keys != {}
        invariant keys <= regions.Keys
        invariant Increasing(gpas) && forall g :: g in gpas <==> g in regions.Keys - keys
        decreases |keys|
      {
        var g :| g in keys;
        gpas := Insert(g, gpas);
        keys := keys - {g};
      }
    }

    /** Collect the keys in whatever order the map yields them, sort, and feed everything to the hasher. */
    method HashState(hash: seq<byte> -> u64) returns (h: u64)
      ensures h == hash(HashStream(registers, Contents()))
    {
      hide HashStream;
      var stream := FeedRegisters();
      var gpas := SortedKeys();
      var chunks := FeedRegions(gpas);
      StreamIsHashStream(registers, Contents(), gpas);
      h := hash(stream + chunks);
    }
  }

  class TraceLogger {
    var events: seq<TraceEvent>

    constructor ()
      ensures events == []
    {
      events := [];
    }

    method LogEvent(event: TraceEvent)
      modifies this
      ensures events == old(events) + [event]
    {
      events := events + [event];
    }
  }

  /** Read one register through a one-element list, as both engines do. */
  method ReadRegister(vcpu: Vcpu, ghost partition: Partition, name: RegName) returns (v: RegValue)
    ensures v == GetAll(vcpu.regs, [name])[0]
    ensures RegionsOf(partition.mappings) == old(RegionsOf(partition.mappings))
  {
    ghost var rs := RegionsOf(partition.mappings);
    var values := new RegValue[1](_ => RegValue(0, 0));
    vcpu.GetRegisters([name], values);
    v := values[..][0];
    assert RegionsOf(partition.mappings) == rs;
  }

  /** Write a list of registers; guest memory is out of reach. */
  method Inject(vcpu: Vcpu, ghost partition: Partition, names: seq<RegName>, values: seq<RegValue>)
    requires |names| == |values|
    modifies vcpu
    ensures vcpu.regs == SetAll(old(vcpu.regs), names, values)
    ensures RegionsOf(partition.mappings) == old(RegionsOf(partition.mappings))
  {
    ghost var rs := RegionsOf(partition.mappings);
    vcpu.SetRegisters(names, values);
    assert RegionsOf(partition.mappings) == rs;
  }

  /** Read RIP, add the instruction length, write it back; `false` is the overflow panic. */
  method Advance(build: Build, vcpu: Vcpu, ghost partition: Partition, length: byte) returns (ok: bool)
    modifies vcpu
    ensures AdvanceRip(build, old(Machine(vcpu.regs, partition.Mem())), length) ==
            if ok then Some(Machine(vcpu.regs, partition.Mem())) else None
    ensures !ok ==> vcpu.regs == old(vcpu.regs)
    ensures RegionsOf(partition.mappings) == old(RegionsOf(partition.mappings))
  {
    hide SetAll, RegionsOf, View;
    var rip := ReadRegister(vcpu, partition, Rip);
    match AddU64(build, rip.low, length)
    case None => ok := false;
    case Some(next) =>
      Inject(vcpu, partition, [Rip], [RegValue(next, rip.high)]);
      ok := true;
  }

  class RecordEngine {
    const partition: Partition
    const vcpu: Vcpu
    const logger: TraceLogger

    constructor (partition: Partition, vcpu: Vcpu)
      ensures this.partition == partition && this.vcpu == vcpu && fresh(logger) && logger.events == []
    {
      this.partition := partition;
      this.vcpu := vcpu;
      this.logger := new TraceLogger();
    }

    /** The engine's state as the state machine sees it. */
    ghost function At(count: u64, status: Rec.Status): Rec.State
      reads this, partition, partition.Buffers(), vcpu, logger
    {
      Rec.State(Machine(vcpu.regs, partition.Mem()), logger.events, count, status)
    }

    method LogAndAdvance(p: Platform, instructionCount: u64, event: EventType, length: byte)
      returns (status: Rec.Status, next: u64)
      modifies vcpu, logger
      ensures At(next, status) ==
              Rec.LogAndAdvance(p.build, old(logger.events), instructionCount,
                                old(Machine(vcpu.regs, partition.Mem())), event, length)
      ensures RegionsOf(partition.mappings) == old(RegionsOf(partition.mappings))
    {
      hide AdvanceRip;
      ghost var rs := RegionsOf(partition.mappings);
      logger.LogEvent(TraceEvent(instructionCount, event));
      assert RegionsOf(partition.mappings) == rs;
      next := instructionCount;
      match AddU64(p.build, instructionCount, 1)
      case None =>
        status := Rec.Failed(ArithmeticOverflow);
      case Some(incremented) =>
        next := incremented;
        var ok := Advance(p.build, vcpu, partition, length);
        status := if ok then Rec.Running else Rec.Failed(ArithmeticOverflow);
    }

    /** One iteration: run, then inject, log and advance, or stop. */
    method OneExit(p: Platform, o: Rec.Oracle, instructionCount: u64) returns (status: Rec.Status, next: u64)
      requires partition.Valid()
      modifies vcpu, logger, partition.Buffers()
      ensures At(next, status) == Rec.Step(p, o, old(At(instructionCount, Rec.Running)))
      ensures Evolves(old(RegionsOf(partition.mappings)), RegionsOf(partition.mappings))
    {
      hide SetAll, RegionsOf, View, Rec.LogAndAdvance, Evolves;
      next := instructionCount;
      var exit := partition.Run(p.guest, vcpu);
      match exit
      case HostFailed(code) =>
        status := Rec.Failed(HostError(code));
      case Exited(ctx) =>
        if ctx.reason == EXIT_CPUID {
          var v := o.cpuid(|logger.events|);
          Inject(vcpu, partition, Rec.CPUID_NAMES, [Reg64(v.eax), Reg64(v.ebx), Reg64(v.ecx), Reg64(v.edx)]);
          status, next := LogAndAdvance(p, next, Cpuid(v.eax, v.ebx, v.ecx, v.edx), InstructionLength(ctx));
        } else if ctx.reason == EXIT_RDTSC {
          var v := o.tsc(|logger.events|);
          Inject(vcpu, partition, Rec.TSC_NAMES, [Reg64(v.rax), Reg64(v.rdx)]);
          status, next := LogAndAdvance(p, next, Rdtsc(v.rax, v.rdx), InstructionLength(ctx));
        } else if ctx.reason == EXIT_VMCALL {
          var rcx := ReadRegister(vcpu, partition, Rcx);
          status, next := LogAndAdvance(p, next, ContextSwitch(Low32(rcx.low)), 3);
        } else {
          status := Rec.Stopped(ctx);
        }
    }

    /**
     The record loop, whatever an earlier call has left in the log; the counter starts at zero.
     `n` is any number of iterations within which the guest stops; the result does not depend on it.
     */
    method Run(p: Platform, o: Rec.Oracle, ghost n: nat) returns (status: Rec.Status, ghost count: u64)
      requires partition.Valid()
      requires !Rec.From(p, o, At(0, Rec.Running), n).status.Running?
      modifies vcpu, logger, partition.Buffers()
      ensures At(count, status) == Rec.From(p, o, old(At(0, Rec.Running)), n)
      ensures Evolves(old(RegionsOf(partition.mappings)), RegionsOf(partition.mappings))
    {
      hide Rec.Step, Rec.From, View, RegionsOf, Evolves;
      ghost var start, rs := At(0, Rec.Running), RegionsOf(partition.mappings);
      ghost var k := 0;
      var instructionCount: u64 := 0;
      status := Rec.Running;
      Rec.FromSucc(p, o, start, 0);
      EvolvesFromItself(rs);
      while status.Running?
        invariant k <= n
        invariant At(instructionCount, status) == Rec.From(p, o, start, k)
        invariant Evolves(rs, RegionsOf(partition.mappings))
        invariant status.Running? ==> k < n
        decreases n - k
      {
        ghost var before := RegionsOf(partition.mappings);
        status, instructionCount := OneExit(p, o, instructionCount);
        EvolvesThrough(rs, before, RegionsOf(partition.mappings));
        Rec.FromSucc(p, o, start, k + 1);
        k := k + 1;
      }
      count := instructionCount;
      Rec.FromStopped(p, o, start, k, n);
    }
  }

  /** The mappings that restoring makes: the snapshot's own buffers, in iteration order. */
  ghost function MappingsIn(order: seq<u64>, regions: map<u64, array<byte>>): (ms: seq<Mapping>)
    requires forall g :: g in order ==> g in regions
    ensures |ms| == |order|
    ensures forall i :: 0 <= i < |order| ==> ms[i] == Mapping(order[i], regions[order[i]])
  {
    seq(|order|, i requires 0 <= i < |order| => Mapping(order[i], regions[order[i]]))
  }

  /**
   Aliasing: once a snapshot's buffers are what the guest is mapped to, guest memory is always what
   the snapshot holds, whatever either side has written since.
   */
  lemma SnapshotIsGuestMemory(snapshot: Snapshot, partition: Partition, order: seq<u64>)
    requires IsOrder(order, snapshot.regions.Keys)
    requires partition.mappings == MappingsIn(order, snapshot.regions)
    ensures RegionsOf(partition.mappings) == Listed(order, snapshot.Contents())
    ensures partition.Mem() == View(Listed(order, snapshot.Contents()))
    ensures Separate(snapshot.Contents()) ==> Describes(snapshot.Contents(), partition.Mem())
  {
    hide View;
    assert RegionsOf(partition.mappings) == Listed(order, snapshot.Contents());
    if Separate(snapshot.Contents()) {
      RestoreIsExact(order, snapshot.Contents());
    }
  }

  /** A region that is not yet in the order has a buffer that is not yet mapped. */
  lemma NotYetMapped(snapshot: Snapshot, order: seq<u64>, g: u64)
    requires snapshot.Valid() && g in snapshot.regions && g !in order
    requires forall x :: x in order ==> x in snapshot.regions
    ensures snapshot.regions[g] !in BuffersOf(MappingsIn(order, snapshot.regions))
    ensures snapshot.regions[g] in snapshot.Buffers()
  {
    var ms := MappingsIn(order, snapshot.regions);
    forall i | 0 <= i < |ms| ensures ms[i].buf != snapshot.regions[g] {
      assert order[i] in order;
    }
  }

  lemma LoopZero(p: Platform, e: EventType, m: Machine)
    ensures Rep.Loop(p, e, m, 0) == Rep.Iteration(Rep.Spinning, m)
  {
  }

  lemma LoopSucc(p: Platform, e: EventType, m: Machine, k: nat)
    requires k > 0
    ensures var prev := Rep.Loop(p, e, m, k - 1);
            Rep.Loop(p, e, m, k) == if prev.outcome.Spinning? then Rep.Iterate(p, e, prev.machine) else prev
  {
  }

  class ReplayEngine {
    const partition: Partition
    var vcpus: map<u32, Vcpu>
    var activeVcpuId: u32

    constructor (partition: Partition, initialVcpuId: u32)
      ensures this.partition == partition && vcpus == map[] && activeVcpuId == initialVcpuId
    {
      this.partition := partition;
      vcpus := map[];
      activeVcpuId := initialVcpuId;
    }

    /** The lookup of the active virtual processor does not panic. */
    ghost predicate Ready()
      reads this
    {
      activeVcpuId in vcpus
    }

    method RegisterVcpu(id: u32, vcpu: Vcpu)
      modifies this
      ensures vcpus == old(vcpus)[id := vcpu] && activeVcpuId == old(activeVcpuId)
      ensures old(Ready()) || id == activeVcpuId ==> Ready()
    {
      vcpus := vcpus[id := vcpu];
    }

    function ActiveVcpu(): Vcpu
      requires Ready()
      reads this
    {
      vcpus[activeVcpuId]
    }

    /** Map the snapshot's buffers themselves into the guest, then write the captured registers. */
    method RestoreSnapshot(snapshot: Snapshot, names: seq<RegName>) returns (ghost order: seq<u64>)
      requires Ready() && snapshot.Valid() && partition.Valid() && partition.Buffers() !! snapshot.Buffers()
      requires snapshot.registers == [] || |snapshot.registers| == |names|
      modifies partition, ActiveVcpu()
      ensures IsOrder(order, snapshot.regions.Keys)
      ensures partition.Valid() && partition.mappings == old(partition.mappings) + MappingsIn(order, snapshot.regions)
      ensures ActiveVcpu().regs ==
              if snapshot.registers == [] then old(ActiveVcpu().regs)
              else SetAll(old(ActiveVcpu().regs), names, snapshot.registers)
    {
      order := [];
      var keys := snapshot.regions.Keys;
      while keys != {}
        invariant keys <= snapshot.regions.Keys
        invariant IsOrder(order, snapshot.regions.Keys - keys)
        invariant partition.Valid()
        invariant partition.mappings == old(partition.mappings) + MappingsIn(order, snapshot.regions)
        invariant ActiveVcpu().regs == old(ActiveVcpu().regs)
        decreases |keys|
      {
        var g :| g in keys;
        NotYetMapped(snapshot, order, g);
        assert partition.Buffers() == old(partition.Buffers()) + BuffersOf(MappingsIn(order, snapshot.regions));
        partition.MapGpaRange(g, snapshot.regions[g]);
        keys := keys - {g};
        ghost var longer := order + [g];
        assert forall x :: x in longer <==> x in order || x == g;
        order := longer;
      }
      if snapshot.registers != [] {
        ActiveVcpu().SetRegisters(names, snapshot.registers);
      }
    }

    /** The guest-memory writer of the replay engine: a stub. */
    method WriteGuestMemory(write: MemoryWrite)
      ensures RegionsOf(partition.mappings) == old(RegionsOf(partition.mappings))
    {
    }

    method InjectEvent(event: EventType)
      requires Ready()
      modifies ActiveVcpu()
      ensures ActiveVcpu().regs == Rep.InjectedRegs(event, old(ActiveVcpu().regs))
      ensures RegionsOf(partition.mappings) == old(RegionsOf(partition.mappings))
    {
      hide SetAll, RegionsOf, View;
      match event
      case Syscall(rax, writes) =>
        Inject(ActiveVcpu(), partition, [Rax], [Reg64(rax)]);
        for i := 0 to |writes|
          invariant ActiveVcpu().regs == Rep.InjectedRegs(event, old(ActiveVcpu().regs))
          invariant RegionsOf(partition.mappings) == old(RegionsOf(partition.mappings))
        {
          WriteGuestMemory(writes[i]);
        }
      case Rdtsc(rax, rdx) =>
        Inject(ActiveVcpu(), partition, [Rax, Rdx], [Reg64(rax), Reg64(rdx)]);
      case Cpuid(eax, ebx, ecx, edx) =>
        Inject(ActiveVcpu(), partition, [Rax, Rbx, Rcx, Rdx], [Reg64(eax), Reg64(ebx), Reg64(ecx), Reg64(edx)]);
      case ContextSwitch(_) =>
    }

    ghost function Now(): Machine
      requires Ready()
      reads this, partition, partition.Buffers(), ActiveVcpu()
    {
      Machine(ActiveVcpu().regs, partition.Mem())
    }

    method InjectAndAdvance(build: Build, event: EventType, length: byte) returns (outcome: Rep.Outcome)
      requires Ready()
      modifies ActiveVcpu()
      ensures Rep.Iteration(outcome, Now()) == Rep.InjectAndAdvance(build, event, old(Now()), length)
      ensures RegionsOf(partition.mappings) == old(RegionsOf(partition.mappings))
    {
      hide SetAll, RegionsOf, View, AdvanceRip, Rep.InjectedRegs;
      InjectEvent(event);
      var ok := Advance(build, ActiveVcpu(), partition, length);
      outcome := if ok then Rep.Injected else Rep.Faulted(ArithmeticOverflow);
    }

    /** One trip around the replay loop. */
    method OneIteration(p: Platform, event: EventType) returns (outcome: Rep.Outcome)
      requires Ready() && partition.Valid()
      modifies ActiveVcpu(), partition.Buffers()
      ensures Rep.Iteration(outcome, Now()) == Rep.Iterate(p, event, old(Now()))
      ensures Evolves(old(RegionsOf(partition.mappings)), RegionsOf(partition.mappings))
    {
      hide SetAll, RegionsOf, View, Rep.InjectAndAdvance, Evolves;
      var exit := partition.Run(p.guest, ActiveVcpu());
      match exit
      case HostFailed(code) =>
        outcome := Rep.Faulted(HostError(code));
      case Exited(ctx) =>
        if ctx.reason == EXIT_MEMORY_ACCESS || ctx.reason == EXIT_HALT {
          outcome := Rep.Halted;
        } else if ctx.reason == EXIT_CPUID {
          if event.Cpuid? {
            outcome := InjectAndAdvance(p.build, event, InstructionLength(ctx));
          } else {
            outcome := Rep.Spinning;
          }
        } else if ctx.reason == EXIT_RDTSC {
          if event.Rdtsc? {
            outcome := InjectAndAdvance(p.build, event, InstructionLength(ctx));
          } else {
            outcome := Rep.Spinning;
          }
        } else if ctx.reason == EXIT_VMCALL {
          if event.ContextSwitch? {
            var rcx := ReadRegister(ActiveVcpu(), partition, Rcx);
            var current := Low32(rcx.low);
            if current == event.nextThreadId {
              outcome := InjectAndAdvance(p.build, event, 3);
            } else {
              outcome := Rep.WrongThread(event.nextThreadId, current);
            }
          } else {
            outcome := Rep.UnexpectedVmcall;
          }
        } else {
          outcome := Rep.Unhandled(ctx.reason);
        }
    }

    /** The replay loop, for a call that returns; `k` is any bound on its iterations. */
    method ReplayEvent(p: Platform, event: TraceEvent, ghost k: nat) returns (outcome: Rep.Outcome)
      requires Ready() && partition.Valid()
      requires !Rep.Loop(p, event.event, Now(), k).outcome.Spinning?
      modifies ActiveVcpu(), partition.Buffers()
      ensures Rep.ReplayEvent(p, event.event, old(Now())).Returned?
      ensures outcome == Rep.ReplayEvent(p, event.event, old(Now())).outcome
      ensures Now() == Rep.ReplayEvent(p, event.event, old(Now())).machine
      ensures Evolves(old(RegionsOf(partition.mappings)), RegionsOf(partition.mappings))
    {
      hide Rep.Iterate, Rep.ReplayEvent, RegionsOf, View, Evolves;
      ghost var m, rs := Now(), RegionsOf(partition.mappings);
      EvolvesFromItself(rs);
      ghost var j := 0;
      outcome := Rep.Spinning;
      LoopZero(p, event.event, m);
      while outcome.Spinning?
        invariant j <= k
        invariant Rep.Iteration(outcome, Now()) == Rep.Loop(p, event.event, m, j)
        invariant Evolves(rs, RegionsOf(partition.mappings))
        invariant outcome.Spinning? ==> j < k
        decreases k - j
      {
        ghost var before := RegionsOf(partition.mappings);
        outcome := OneIteration(p, event.event);
        EvolvesThrough(rs, before, RegionsOf(partition.mappings));
        LoopSucc(p, event.event, m, j + 1);
        j := j + 1;
      }
      Rep.LoopSettles(p, event.event, m, j, k);
      Rep.ReplayEventIs(p, event.event, m, k);
    }
  }
}
