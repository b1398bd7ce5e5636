/** The record and replay commands end to end, and the verdict they are built to reach. */
module Pipeline {
  import opened Words
  import opened Trace
  import opened GuestMachine
  import opened GuestMemory
  import opened StateHash
  import opened Codec
  import opened Archive
  import opened Paging
  import opened Layout
  import opened Loader
  import opened Vmm
  import opened Engines
  import Rec = Recorder
  import Rep = Replayer
  import Lockstep

  const CAPTURE_NAMES: seq<RegName> := [Rip, Rsp, Rflags, Cr0, Cr3, Cr4]

  // ---------------------------------------------------------------------------------------------
  // Starting states.

  function BootRegs(reset: RegFile, entry: u32, size: nat): RegFile
    requires StackBase(size) + STACK_SIZE < TWO_64
  {
    SetAll(LongMode(reset, TABLE_BASE), [Rip, Rsp],
      [Reg64(IMAGE_BASE + entry), Reg64(StackBase(size) + STACK_SIZE)])
  }

  function RecordStart(reset: RegFile, entry: u32, image: seq<byte>): Machine
    requires StackBase(|image|) + STACK_SIZE < TWO_64
  {
    Machine(BootRegs(reset, entry, |image|), View(Mapped(InitialBuffers(image))))
  }

  /**
   From equal fresh processors, entering long mode and restoring any list of captured registers
   that includes RIP and RSP rebuilds the recorder's whole register file; six are captured.
   */
  lemma CapturedRegistersSuffice(reset: RegFile, entry: u32, size: nat, names: seq<RegName>)
    requires StackBase(size) + STACK_SIZE < TWO_64
    requires Rip in names && Rsp in names
    ensures SetAll(LongMode(reset, TABLE_BASE), names, GetAll(BootRegs(reset, entry, size), names))
            == BootRegs(reset, entry, size)
  {
    var base, regs := LongMode(reset, TABLE_BASE), BootRegs(reset, entry, size);
    hide LongMode, SetAll;
    forall r | r !in names ensures base[r] == regs[r] {
      SetAllFrame(base, [Rip, Rsp], [Reg64(IMAGE_BASE + entry), Reg64(StackBase(size) + STACK_SIZE)], r);
    }
    RestoreIsWholeFileIff(base, regs, names);
  }

  /** The control bits that put 4-level paging in force: PG and PE, PAE, LME and LMA. */
  predicate PagingInForce(regs: RegFile) {
    && regs[Cr0].low / 0x8000_0000 % 2 == 1 && regs[Cr0].low % 2 == 1
    && regs[Cr4].low / 0x20 % 2 == 1
    && regs[Efer].low / 0x100 % 2 == 1 && regs[Efer].low / 0x400 % 2 == 1
  }

  lemma SetRipAndRsp(base: RegFile, rip: RegValue, rsp: RegValue, r: RegName)
    ensures SetAll(base, [Rip, Rsp], [rip, rsp])[r] == if r == Rip then rip else if r == Rsp then rsp else base[r]
  {
    assert [Rip, Rsp][..1] == [Rip] && [rip, rsp][..1] == [rip];
    SetOne(base, Rip, rip);
  }

  /**
   The processor that recording boots, register by register: RIP at the entry point of the image at
   0x100000, RSP at the end of the 0x10000-byte stack that follows the image, the tables at 0x200000 in
   CR3, long mode, and everything else as at reset.
   */
  lemma BootedRegisters(reset: RegFile, entry: u32, image: seq<byte>, r: RegName)
    requires |image| > 0 && |image| % 4096 == 0 && StackBase(|image|) + STACK_SIZE < TWO_64
    ensures RecordStart(reset, entry, image).regs[r] ==
            match r
            case Rip => RegValue(0x10_0000 + entry, 0)
            case Rsp => RegValue(0x10_0000 + |image| + 0x1_0000, 0)
            case Cr3 => RegValue(0x20_0000, 0)
            case Cr4 => RegValue(0x620, 0)
            case Efer => RegValue(0x500, 0)
            case Cr0 => RegValue(0x8000_0031, 0)
            case Cs => RegValue(0, 0xA09B_0008_FFFF_FFFF)
            case Ds | Es | Fs | Gs | Ss => RegValue(0, 0xC093_0010_FFFF_FFFF)
            case Tr => RegValue(0, 0x008B_0018_0000_FFFF)
            case Ldtr => RegValue(0, 0)
            case Rflags => RegValue(2, 0)
            case _ => reset[r]
  {
    hide SetAll, LongMode, View, InitialBuffers;
    assert PageRound(|image|) == |image|;
    SetRipAndRsp(LongMode(reset, TABLE_BASE), Reg64(IMAGE_BASE + entry), Reg64(StackBase(|image|) + STACK_SIZE), r);
    LongModeTable(reset, TABLE_BASE, r);
  }

  /** RSP is the exclusive end of the stack's mapping. */
  lemma StackEndsAtRsp(reset: RegFile, entry: u32, image: seq<byte>, a: nat)
    requires |image| > 0 && |image| % 4096 == 0 && StackBase(|image|) + STACK_SIZE < TWO_64
    ensures var rsp := RecordStart(reset, entry, image).regs[Rsp].low;
            Covers(Mapped(InitialBuffers(image))[1], a) <==> rsp - 0x1_0000 <= a < rsp
  {
    hide RecordStart, TableBytes;
    BootedRegisters(reset, entry, image, Rsp);
    assert PageRound(|image|) == |image|;
  }

  /** The memory it boots with, byte by byte; addresses not named here are not mapped. */
  lemma BootedMemory(reset: RegFile, entry: u32, image: seq<byte>, a: nat)
    requires |image| > 0 && |image| % 4096 == 0 && StackBase(|image|) + STACK_SIZE < TWO_64
    ensures var mem := RecordStart(reset, entry, image).mem;
            if 0x20_0000 <= a < 0x20_3000 then a in mem && mem[a] == TableBytes(0x20_0000)[a - 0x20_0000]
            else if 0x10_0000 <= a < 0x10_0000 + |image| then a in mem && mem[a] == image[a - 0x10_0000]
            else if a < 0x1000 || 0x10_0000 + |image| <= a < 0x10_0000 + |image| + 0x1_0000 then a in mem && mem[a] == 0
            else a !in mem
  {
    hide View, Owner, BootRegs, TableBytes;
    var rs := Mapped(InitialBuffers(image));
    assert PageRound(|image|) == |image|;
    ViewAt(rs, a);
    assert Covers(rs[0], a) <==> 0x10_0000 <= a < 0x10_0000 + |image|;
    assert Covers(rs[1], a) <==> 0x10_0000 + |image| <= a < 0x10_0000 + |image| + 0x1_0000;
    assert Covers(rs[2], a) <==> a < 0x1000;
    assert Covers(rs[3], a) <==> 0x20_0000 <= a < 0x20_3000;
  }

  lemma BootControlRegisters(reset: RegFile, entry: u32, image: seq<byte>)
    requires |image| > 0 && |image| % 4096 == 0 && StackBase(|image|) + STACK_SIZE < TWO_64
    ensures var regs := RecordStart(reset, entry, image).regs; PagingInForce(regs) && regs[Cr3].low == TABLE_BASE
  {
    hide RecordStart;
    BootedRegisters(reset, entry, image, Cr0);
    BootedRegisters(reset, entry, image, Cr3);
    BootedRegisters(reset, entry, image, Cr4);
    BootedRegisters(reset, entry, image, Efer);
  }

  /**
   The guest that recording boots runs under 4-level paging whose tables, found through CR3 in the
   memory it sees, translate the first gigabyte to itself and nothing else.
   */
  lemma BootsIdentityMapped(reset: RegFile, entry: u32, image: seq<byte>, va: u64)
    requires |image| > 0 && |image| % 4096 == 0 && StackBase(|image|) + STACK_SIZE < TWO_64 && Canonical(va)
    ensures var start := RecordStart(reset, entry, image);
            && PagingInForce(start.regs)
            && Walk(start.mem, start.regs[Cr3].low, va) == if va < TWO_30 then Page(va, true) else NotPresent
  {
    hide BootRegs, View, Walk, TableBytes, PagingInForce;
    BootControlRegisters(reset, entry, image);
    BootTranslation(InitialBuffers(image), |image|, va);
  }

  /** What the final hash of either command is computed from. */
  ghost function HashInput(regs: RegFile, regions: RegionMap): seq<byte> {
    HashStream(GetAll(regs, CAPTURE_NAMES), regions)
  }

  /** What recording hashes: the host buffers as the run has left them, hidden bytes included. */
  ghost function RecordInput(
    p: Platform, o: Rec.Oracle, reset: RegFile, entry: u32, image: seq<byte>, n: nat): seq<byte>
    requires StackBase(|image|) + STACK_SIZE < TWO_64
  {
    var final := Rec.After(p, o, RecordStart(reset, entry, image), n).machine;
    HashInput(final.regs, Captured(FinalBuffers(InitialBuffers(image), final.mem)))
  }

  /** The archive that recording an image is bound to write. */
  ghost function Recording(
    p: Platform, o: Rec.Oracle, hash: seq<byte> -> u64, reset: RegFile, entry: u32, image: seq<byte>, n: nat): Archive
    requires StackBase(|image|) + STACK_SIZE < TWO_64
  {
    Archive(Captured(InitialBuffers(image)),
            GetAll(BootRegs(reset, entry, |image|), CAPTURE_NAMES),
            Rec.After(p, o, RecordStart(reset, entry, image), n).log,
            hash(RecordInput(p, o, reset, entry, image, n)))
  }

  /** The archive's parts that do not depend on the run: six registers and four regions. */
  lemma RecordedSnapshot(
    p: Platform, o: Rec.Oracle, hash: seq<byte> -> u64, reset: RegFile, entry: u32, image: seq<byte>, n: nat)
    requires |image| > 0 && |image| % 4096 == 0 && StackBase(|image|) + STACK_SIZE < TWO_64
    ensures var a := Recording(p, o, hash, reset, entry, image, n);
            && a.registers == [RegValue(0x10_0000 + entry, 0), RegValue(0x10_0000 + |image| + 0x1_0000, 0), RegValue(2, 0),
                               RegValue(0x8000_0031, 0), RegValue(0x20_0000, 0), RegValue(0x620, 0)]
            && a.regions.Keys == {0, 0x10_0000, 0x10_0000 + |image|, 0x20_0000}
            && a.regions[0] == Zeros(0x1000) && a.regions[0x10_0000] == image
            && a.regions[0x20_0000] == TableBytes(0x20_0000)
            && (|image| != 0x10_0000 ==> a.regions[0x10_0000 + |image|] == Zeros(0x1_0000))
            && a.events == Rec.After(p, o, RecordStart(reset, entry, image), n).log
  {
    hide TableBytes, BootRegs, View, Rec.After, RecordInput;
    var start := RecordStart(reset, entry, image);
    assert PageRound(|image|) == |image|;
    BootedRegisters(reset, entry, image, Rip);
    BootedRegisters(reset, entry, image, Rsp);
    BootedRegisters(reset, entry, image, Rflags);
    BootedRegisters(reset, entry, image, Cr0);
    BootedRegisters(reset, entry, image, Cr3);
    BootedRegisters(reset, entry, image, Cr4);
  }

  lemma TwoMoreParts(parts: seq<seq<byte>>)
    requires |parts| >= 2
    ensures Flatten(parts) == parts[0] + parts[1] + Flatten(parts[2..])
  {
    assert parts[1..][1..] == parts[2..];
  }

  lemma SixParts(parts: seq<seq<byte>>)
    requires |parts| == 6
    ensures Flatten(parts) == parts[0] + parts[1] + parts[2] + parts[3] + parts[4] + parts[5]
  {
    TwoMoreParts(parts);
    TwoMoreParts(parts[2..]);
    assert parts[2..][2..] == parts[4..];
    TwoMoreParts(parts[4..]);
    assert parts[4..][2..] == [];
  }

  /** The bytes that either command's final hash is of: six registers by name, then the regions by address. */
  lemma HashInputLayout(regs: RegFile, regions: RegionMap, order: seq<u64>)
    requires forall i, j :: 0 <= i < j < |order| ==> order[i] < order[j]
    requires forall g :: g in order <==> g in regions
    ensures HashInput(regs, regions) ==
            Le(regs[Rip].low, 8) + Le(regs[Rsp].low, 8) + Le(regs[Rflags].low, 8)
            + Le(regs[Cr0].low, 8) + Le(regs[Cr3].low, 8) + Le(regs[Cr4].low, 8)
            + Flatten(ChunkParts(order, regions))
  {
    hide Le, Flatten, HashStream, ChunkParts, GetAll;
    HashLayout(GetAll(regs, CAPTURE_NAMES), regions, order);
    SixParts(LowParts(GetAll(regs, CAPTURE_NAMES)));
  }

  // ---------------------------------------------------------------------------------------------
  // What replay concludes.

  datatype Verdict = Undecodable | Panicked | Hangs | Compared(expected: u64, actual: u64)

  function ReplayStart(reset: RegFile, a: Archive, order: seq<u64>): Machine
    requires a.registers == [] || |a.registers| == |CAPTURE_NAMES|
    requires forall g :: g in order ==> g in a.regions
  {
    var base := LongMode(reset, TABLE_BASE);
    Machine(if a.registers == [] then base else SetAll(base, CAPTURE_NAMES, a.registers), View(Listed(order, a.regions)))
  }

  /** The last run's own failure is reported and otherwise ignored. */
  function LastRun(p: Platform, m: Machine): Machine {
    match Run(p.guest, m)
    case Ran(_, m') => m'
    case RunFailed(_) => m
  }

  /**
   What replay hashes when the events have brought the guest to `m`: the snapshot's own buffers,
   restored in the given order, after the last run.
   */
  ghost function ReplayInput(p: Platform, a: Archive, order: seq<u64>, m: Machine): seq<byte>
    requires forall g :: g in order ==> g in a.regions
  {
    HashInput(LastRun(p, m).regs, Reread(order, a.regions, LastRun(p, m).mem))
  }

  ghost function Judge(
    p: Platform, hash: seq<byte> -> u64, reset: RegFile, a: Archive, order: seq<u64>): Verdict
    requires forall g :: g in order ==> g in a.regions
  {
    if a.registers != [] && |a.registers| != |CAPTURE_NAMES| then Panicked
    else
      match Rep.ReplayTrace(p, a.events, ReplayStart(reset, a, order))
      case Hung => Hangs
      case Aborted(_) => Panicked
      case Replayed(m, _, _) => Compared(a.hash, hash(ReplayInput(p, a, order, m)))
  }

  lemma SetCapturedAt(base: RegFile, values: seq<RegValue>, i: nat)
    requires |values| == 6 && i < 6
    ensures SetAll(base, CAPTURE_NAMES, values)[CAPTURE_NAMES[i]] == values[i]
  {
    hide SetAll;
    SetAllLookup(base, CAPTURE_NAMES, values, i);
  }

  lemma CapturedNames(r: RegName)
    ensures r in CAPTURE_NAMES <==> r in {Rip, Rsp, Rflags, Cr0, Cr3, Cr4}
  {
    assert r in {Rip, Rsp, Rflags, Cr0, Cr3, Cr4} ==>
      || r == CAPTURE_NAMES[0] || r == CAPTURE_NAMES[1] || r == CAPTURE_NAMES[2]
      || r == CAPTURE_NAMES[3] || r == CAPTURE_NAMES[4] || r == CAPTURE_NAMES[5];
  }

  lemma SetCaptured(base: RegFile, values: seq<RegValue>, r: RegName)
    requires |values| == 6
    ensures var after := SetAll(base, CAPTURE_NAMES, values);
            && after[Rip] == values[0] && after[Rsp] == values[1] && after[Rflags] == values[2]
            && after[Cr0] == values[3] && after[Cr3] == values[4] && after[Cr4] == values[5]
            && (r !in {Rip, Rsp, Rflags, Cr0, Cr3, Cr4} ==> after[r] == base[r])
  {
    hide SetAll;
    SetCapturedAt(base, values, 0);
    SetCapturedAt(base, values, 1);
    SetCapturedAt(base, values, 2);
    SetCapturedAt(base, values, 3);
    SetCapturedAt(base, values, 4);
    SetCapturedAt(base, values, 5);
    CapturedNames(r);
    if r !in CAPTURE_NAMES {
      SetAllFrame(base, CAPTURE_NAMES, values, r);
    }
  }

  /** What the processor that replay starts has in each register. */
  lemma RestoredRegisters(reset: RegFile, a: Archive, order: seq<u64>, r: RegName)
    requires a.registers == [] || |a.registers| == 6
    requires forall g :: g in order ==> g in a.regions
    ensures ReplayStart(reset, a, order).regs[r] ==
            if a.registers == [] then LongMode(reset, 0x20_0000)[r]
            else
              match r
              case Rip => a.registers[0]
              case Rsp => a.registers[1]
              case Rflags => a.registers[2]
              case Cr0 => a.registers[3]
              case Cr3 => a.registers[4]
              case Cr4 => a.registers[5]
              case _ => LongMode(reset, 0x20_0000)[r]
  {
    hide SetAll, LongMode, View, Listed;
    if a.registers != [] {
      SetCaptured(LongMode(reset, TABLE_BASE), a.registers, r);
    }
  }

  /** A call of `replay_event` that does not fail. */
  ghost predicate ReturnsTo(p: Platform, e: EventType, m: Machine, m': Machine) {
    var call := Rep.ReplayEvent(p, e, m);
    call.Returned? && !call.outcome.Faulted? && m' == call.machine
  }

  /** Calls of `replay_event` on the first events in turn, each from where the last one returned, none failing. */
  ghost predicate Calls(p: Platform, events: seq<TraceEvent>, ms: seq<Machine>) {
    && 0 < |ms| <= |events| + 1
    && forall i :: 0 < i < |ms| ==> ReturnsTo(p, events[i - 1].event, ms[i - 1], ms[i])
  }

  /** The calls come to an event whose own call fails. */
  ghost predicate ComesToFault(p: Platform, events: seq<TraceEvent>, ms: seq<Machine>) {
    && Calls(p, events, ms) && |ms| <= |events|
    && var call := Rep.ReplayEvent(p, events[|ms| - 1].event, ms[|ms| - 1]);
       call.Returned? && call.outcome.Faulted?
  }

  /** The calls come to an event whose own call never returns. */
  ghost predicate ComesToHang(p: Platform, events: seq<TraceEvent>, ms: seq<Machine>) {
    Calls(p, events, ms) && |ms| <= |events| && Rep.ReplayEvent(p, events[|ms| - 1].event, ms[|ms| - 1]).Diverges?
  }

  /** All calls return without a fault. */
  ghost predicate ComesThrough(p: Platform, events: seq<TraceEvent>, ms: seq<Machine>) {
    Calls(p, events, ms) && |ms| == |events| + 1
  }

  lemma {:induction false} CallsAreUnique(p: Platform, events: seq<TraceEvent>, a: seq<Machine>, b: seq<Machine>, i: nat)
    requires Calls(p, events, a) && Calls(p, events, b) && a[0] == b[0] && i < |a| && i < |b|
    ensures a[i] == b[i]
  {
    hide Rep.ReplayEvent;
    if i > 0 { CallsAreUnique(p, events, a, b, i - 1); }
  }

  lemma MoreEvents(p: Platform, events: seq<TraceEvent>, n: nat, ms: seq<Machine>)
    requires n <= |events| && Calls(p, events[..n], ms)
    ensures Calls(p, events, ms)
  {
    hide ReturnsTo;
    forall i | 0 < i < |ms| ensures ReturnsTo(p, events[i - 1].event, ms[i - 1], ms[i]) {
      assert events[..n][i - 1] == events[i - 1];
    }
  }

  lemma OneMoreCall(p: Platform, events: seq<TraceEvent>, ms: seq<Machine>, m: Machine)
    requires Calls(p, events, ms) && |ms| <= |events| && ReturnsTo(p, events[|ms| - 1].event, ms[|ms| - 1], m)
    ensures Calls(p, events, ms + [m])
  {
    hide ReturnsTo;
    var longer := ms + [m];
    forall i | 0 < i < |longer| ensures ReturnsTo(p, events[i - 1].event, longer[i - 1], longer[i]) {
      assert i < |ms| ==> longer[i] == ms[i];
    }
  }

  /** A replayed trace is a list of calls that comes through, or comes to a fault, or comes to a hang. */
  lemma {:induction false} TraceIsCalls(p: Platform, events: seq<TraceEvent>, m: Machine) returns (ms: seq<Machine>)
    ensures |ms| > 0 && ms[0] == m
    ensures match Rep.ReplayTrace(p, events, m)
            case Replayed(last, _, _) => ComesThrough(p, events, ms) && ms[|events|] == last
            case Aborted(_) => ComesToFault(p, events, ms)
            case Hung => ComesToHang(p, events, ms)
    decreases |events|
  {
    hide Rep.ReplayEvent;
    if events == [] {
      ms := [m];
    } else {
      var n := |events| - 1;
      var init := TraceIsCalls(p, events[..n], m);
      ms := init;
      var prev := Rep.ReplayTrace(p, events[..n], m);
      if Calls(p, events[..n], init) {
        MoreEvents(p, events, n, init);
      }
      if prev.Replayed? {
        var call := Rep.ReplayEvent(p, events[n].event, prev.machine);
        if call.Returned? && !call.outcome.Faulted? {
          ms := init + [call.machine];
          OneMoreCall(p, events, init, call.machine);
        }
      }
    }
  }

  /** Only one of the three can be. */
  lemma OneEnding(p: Platform, events: seq<TraceEvent>, a: seq<Machine>, b: seq<Machine>)
    requires |a| > 0 && |b| > 0 && a[0] == b[0]
    ensures ComesThrough(p, events, a) ==> !ComesToFault(p, events, b) && !ComesToHang(p, events, b)
    ensures ComesToFault(p, events, a) ==> !ComesToHang(p, events, b)
    ensures ComesThrough(p, events, a) && ComesThrough(p, events, b) ==> a[|events|] == b[|events|]
  {
    hide Rep.ReplayEvent;
    if Calls(p, events, a) && Calls(p, events, b) {
      if |a| < |b| {
        CallsAreUnique(p, events, a, b, |a| - 1);
        assert ReturnsTo(p, events[|a| - 1].event, b[|a| - 1], b[|a|]);
      } else {
        CallsAreUnique(p, events, a, b, |b| - 1);
        assert |b| < |a| ==> ReturnsTo(p, events[|b| - 1].event, a[|b| - 1], a[|b|]);
      }
    }
  }

  /** The machine after the one further run: a failed run leaves it as it was. */
  ghost predicate RunsOn(p: Platform, m: Machine, last: Machine) {
    match p.guest(m.regs, m.mem)
    case Exit(_, regs, stores) => last.regs == regs && Lands(m.mem, stores, last.mem)
    case HostFailure(_) => last == m
  }

  /**
   What the replay command is to conclude, call by call. It panics exactly when the archive has some
   registers but not six, or a call fails; it hangs exactly when a call does; otherwise it compares the
   archive's hash with that of the final state.
   */
  ghost predicate Concludes(
    p: Platform, hash: seq<byte> -> u64, reset: RegFile, a: Archive, order: seq<u64>, v: Verdict)
    requires forall g :: g in order ==> g in a.regions
  {
    var restorable := |a.registers| == 0 || |a.registers| == 6;
    && (v == Panicked <==>
         (!restorable || exists ms :: ComesToFault(p, a.events, ms) && ms[0] == ReplayStart(reset, a, order)))
    && (v == Hangs <==>
         (restorable && exists ms :: ComesToHang(p, a.events, ms) && ms[0] == ReplayStart(reset, a, order)))
    && (v.Compared? <==>
         (restorable && exists ms :: ComesThrough(p, a.events, ms) && ms[0] == ReplayStart(reset, a, order)))
    && (v.Compared? ==>
          exists ms, last ::
            && ComesThrough(p, a.events, ms) && ms[0] == ReplayStart(reset, a, order)
            && RunsOn(p, ms[|a.events|], last)
            && v == Compared(a.hash, hash(HashInput(last.regs, Reread(order, a.regions, last.mem)))))
  }

  lemma AllComesNonempty(p: Platform, events: seq<TraceEvent>)
    ensures forall ms :: ComesToFault(p, events, ms) || ComesToHang(p, events, ms) || ComesThrough(p, events, ms) ==> |ms| > 0
  {
    hide Rep.ReplayEvent;
  }

  lemma LastRunsOn(p: Platform, m: Machine)
    ensures RunsOn(p, m, LastRun(p, m))
  {
  }

  /** The verdict is that conclusion, for every archive and order. */
  lemma JudgeConcludes(p: Platform, hash: seq<byte> -> u64, reset: RegFile, a: Archive, order: seq<u64>)
    requires forall g :: g in order ==> g in a.regions
    ensures Concludes(p, hash, reset, a, order, Judge(p, hash, reset, a, order))
  {
    hide ReplayStart, HashInput, Reread, Rep.ReplayTrace, ComesToFault, ComesToHang, ComesThrough, LastRun, RunsOn;
    if |a.registers| == 0 || |a.registers| == 6 {
      var start := ReplayStart(reset, a, order);
      var ms := TraceIsCalls(p, a.events, start);
      forall other: seq<Machine> | |other| > 0 && other[0] == start
        ensures ComesThrough(p, a.events, ms) ==> !ComesToFault(p, a.events, other) && !ComesToHang(p, a.events, other)
        ensures ComesToFault(p, a.events, ms) ==> !ComesToHang(p, a.events, other) && !ComesThrough(p, a.events, other)
        ensures ComesToHang(p, a.events, ms) ==> !ComesToFault(p, a.events, other) && !ComesThrough(p, a.events, other)
      {
        OneEnding(p, a.events, ms, other);
        OneEnding(p, a.events, other, ms);
      }
      AllComesNonempty(p, a.events);
      var r := Rep.ReplayTrace(p, a.events, start);
      if r.Replayed? {
        LastRunsOn(p, r.machine);
      }
    }
  }

  /** Whatever the image size, replay starts with the recorder's registers and the restored memory. */
  lemma ReplayStartIs(
    p: Platform, o: Rec.Oracle, hash: seq<byte> -> u64, reset: RegFile, entry: u32, image: seq<byte>, n: nat,
    order: seq<u64>)
    requires StackBase(|image|) + STACK_SIZE < TWO_64
    requires IsOrder(order, Captured(InitialBuffers(image)).Keys)
    ensures ReplayStart(reset, Recording(p, o, hash, reset, entry, image, n), order)
            == Machine(BootRegs(reset, entry, |image|), View(Listed(order, Captured(InitialBuffers(image)))))
  {
    hide LongMode, SetAll, View, InitialBuffers, Captured, RecordInput, Rec.After, RecordStart, BootRegs;
    CapturedRegistersSuffice(reset, entry, |image|, CAPTURE_NAMES);
  }

  lemma CapturedIsSmall(image: seq<byte>)
    requires |image| > 0 && |image| % 4096 == 0 && StackBase(|image|) < TWO_64
    ensures |Captured(InitialBuffers(image))| < TWO_64 && Hashable(Captured(InitialBuffers(image)))
  {
    hide TableBytes;
    var regions := Captured(InitialBuffers(image));
    assert PageRound(|image|) == |image|;
    var keys := {0, IMAGE_BASE, StackBase(|image|), TABLE_BASE};
    assert regions.Keys == keys;
    assert |keys| <= 4;
  }

  lemma InitialShape(image: seq<byte>)
    requires |image| > 0 && |image| % 4096 == 0 && StackBase(|image|) < TWO_64
    ensures Shaped(InitialBuffers(image), |image|) && InitialBuffers(image).image == image
  {
    hide TableBytes;
  }

  /**
   The product's claim. For every guest, oracle, hash function and reset state, every image and every
   order of its regions that maps alike, as all orders do for an image that fits the layout: if
   recording stops, replaying its archive compares two equal hashes.
   */
  lemma VerificationSucceeds(
    p: Platform, o: Rec.Oracle, hash: seq<byte> -> u64, reset: RegFile, entry: u32, image: seq<byte>, n: nat,
    order: seq<u64>)
    requires |image| > 0 && |image| % 4096 == 0 && StackBase(|image|) + STACK_SIZE < TWO_64
    requires Rec.After(p, o, RecordStart(reset, entry, image), n).status.Stopped?
    requires IsOrder(order, Captured(InitialBuffers(image)).Keys) && MapsAlike(InitialBuffers(image), order)
    ensures var a := Recording(p, o, hash, reset, entry, image, n);
            Judge(p, hash, reset, a, order) == Compared(a.hash, a.hash)
  {
    hide ReplayStart, Rec.After, Rep.ReplayTrace, HashInput, Captured, InitialBuffers, View, Mapped, BootRegs, Reread;
    hide FinalBuffers, MapsAlike, PageRound;
    var start, c := RecordStart(reset, entry, image), InitialBuffers(image);
    var final := Rec.After(p, o, start, n);
    InitialShape(image);
    ReplayStartIs(p, o, hash, reset, entry, image, n, order);
    AlikeRestores(c, |image|, order);
    Lockstep.Determinism(p, o, start, n);
    FinalCapturesAgree(c, |image|, order, final.machine.mem);
  }

  // ---------------------------------------------------------------------------------------------
  // Beyond the layout limit.

  /** A guest that halts at once, after marking the image if memory is not what it expects. */
  function Watcher(expected: Memory, mark: byte): Guest {
    (regs: RegFile, mem: Memory) =>
      Exit(ExitContext(EXIT_HALT, 0), regs, if mem == expected then map[] else map[IMAGE_BASE := mark])
  }

  function OtherByte(b: byte): byte {
    if b == 255 then 0 else b + 1
  }

  function WatcherOf(image: seq<byte>): Platform
    requires |image| > 0
  {
    Platform(Watcher(View(Mapped(InitialBuffers(image))), OtherByte(image[0])), Release)
  }

  /** Recording the watcher stops at its first exit, with nothing logged and nothing changed. */
  lemma WatcherRecords(o: Rec.Oracle, reset: RegFile, entry: u32, image: seq<byte>)
    requires |image| > 0 && |image| % 4096 == 0 && StackBase(|image|) + STACK_SIZE < TWO_64
    ensures var start := RecordStart(reset, entry, image);
            var final := Rec.After(WatcherOf(image), o, start, 1);
            final.status.Stopped? && final.log == [] && final.machine == start
    ensures RecordInput(WatcherOf(image), o, reset, entry, image, 1) ==
            HashInput(BootRegs(reset, entry, |image|), Captured(InitialBuffers(image)))
  {
    hide View, BootRegs, InitialBuffers, Mapped, Captured, HashInput, FinalBuffers;
    var p, start, c := WatcherOf(image), RecordStart(reset, entry, image), InitialBuffers(image);
    assert Apply(start.mem, map[]) == start.mem;
    Rec.AfterSucc(p, o, start, 1);
    EvolvesFromItself(Mapped(c));
    EvolvedBuffers(c, c);
  }

  /** Only the image covers the address of its first byte, so a mark there lands in the image. */
  lemma MarkLandsInImage(c: HostBuffers, size: nat, order: seq<u64>, mem: Memory, mark: byte)
    requires Shaped(c, size) && IsOrder(order, Captured(c).Keys)
    requires IMAGE_BASE in mem && mem[IMAGE_BASE] == mark
    ensures IMAGE_BASE in Captured(c) && Captured(c)[IMAGE_BASE] == c.image
    ensures var r := Reread(order, Captured(c), mem);
            IMAGE_BASE in r && |r[IMAGE_BASE]| == size && r[IMAGE_BASE][0] == mark
  {
    hide Owner, Listed;
    var m := Captured(c);
    var rs := Listed(order, m);
    assert PageRound(size) == size;
    assert IMAGE_BASE in m.Keys && IMAGE_BASE in order;
    var i :| 0 <= i < |order| && order[i] == IMAGE_BASE;
    assert Covers(rs[i], IMAGE_BASE);
    var k := Owner(rs, IMAGE_BASE);
    assert k >= i;
    assert CoveredBy(m, order[k], IMAGE_BASE) by { assert order[k] in order; }
    assert order[k] == IMAGE_BASE;
  }

  /** On memory that is not as expected the watcher's run marks the image. */
  lemma WatcherMarks(image: seq<byte>, regs: RegFile, mem: Memory)
    requires |image| > 0 && mem != View(Mapped(InitialBuffers(image))) && IMAGE_BASE in mem
    ensures var after := LastRun(WatcherOf(image), Machine(regs, mem));
            && after.regs == regs && IMAGE_BASE in after.mem
            && after.mem[IMAGE_BASE] != image[0]
  {
    hide View, Mapped, InitialBuffers;
  }

  /** Recording stops at the first exit, and replay compares the hashes of two different inputs. */
  ghost predicate Mismatches(
    p: Platform, o: Rec.Oracle, hash: seq<byte> -> u64, reset: RegFile, entry: u32, image: seq<byte>, order: seq<u64>)
    requires StackBase(|image|) + STACK_SIZE < TWO_64
    requires IsOrder(order, Captured(InitialBuffers(image)).Keys)
  {
    var a := Recording(p, o, hash, reset, entry, image, 1);
    var s := RecordInput(p, o, reset, entry, image, 1);
    var t := ReplayInput(p, a, order, ReplayStart(reset, a, order));
    && Rec.After(p, o, RecordStart(reset, entry, image), 1).status.Stopped? && a.events == []
    && s != t && Judge(p, hash, reset, a, order) == Compared(hash(s), hash(t))
  }

  lemma ImageStartIsMapped(c: HostBuffers, size: nat, order: seq<u64>)
    requires Shaped(c, size) && IsOrder(order, Captured(c).Keys)
    ensures IMAGE_BASE in View(Listed(order, Captured(c)))
  {
    hide View, Listed;
    assert PageRound(size) == size;
    assert CoveredBy(Captured(c), IMAGE_BASE, IMAGE_BASE);
    ViewOfListed(order, Captured(c), IMAGE_BASE);
  }

  /**
   The claim fails whenever restoring is not exact: recording the watcher and replaying its archive
   is a mismatch.
   */
  lemma InexactRestoreFails(
    o: Rec.Oracle, hash: seq<byte> -> u64, reset: RegFile, entry: u32, image: seq<byte>, order: seq<u64>)
    requires |image| > 0 && |image| % 4096 == 0 && StackBase(|image|) + STACK_SIZE < TWO_64
    requires IsOrder(order, Captured(InitialBuffers(image)).Keys) && !RestoresExactly(image, order)
    ensures Mismatches(WatcherOf(image), o, hash, reset, entry, image, order)
  {
    hide View, Mapped, InitialBuffers, Captured, HashStream, BootRegs, RecordStart, Rec.After, RecordInput, Reread;
    hide ReplayStart, Listed, WatcherOf, LastRun;
    var p, c := WatcherOf(image), InitialBuffers(image);
    var a := Recording(p, o, hash, reset, entry, image, 1);
    var regs, restored := BootRegs(reset, entry, |image|), View(Listed(order, Captured(c)));
    InitialShape(image);
    WatcherRecords(o, reset, entry, image);
    assert a.events == [];
    ReplayStartIs(p, o, hash, reset, entry, image, 1, order);
    ImageStartIsMapped(c, |image|, order);
    WatcherMarks(image, regs, restored);
    var after := LastRun(p, Machine(regs, restored));
    MarkLandsInImage(c, |image|, order, after.mem, after.mem[IMAGE_BASE]);
    CapturedIsSmall(image);
    var r := Reread(order, Captured(c), after.mem);
    assert r != Captured(c);
    HashStreamIsCanonical(GetAll(regs, CAPTURE_NAMES), Captured(c), GetAll(after.regs, CAPTURE_NAMES), r);
  }

  ghost predicate NoCollision(hash: seq<byte> -> u64, s: seq<byte>, t: seq<byte>) {
    hash(s) == hash(t) ==> s == t
  }

  /** At 0x100000 bytes the claim fails in every iteration order, unless the hash collides. */
  lemma CollisionFailsVerification(
    o: Rec.Oracle, hash: seq<byte> -> u64, reset: RegFile, entry: u32, image: seq<byte>, order: seq<u64>)
    requires |image| == 0x10_0000 && IsOrder(order, Captured(InitialBuffers(image)).Keys)
    ensures var p := WatcherOf(image);
            var a := Recording(p, o, hash, reset, entry, image, 1);
            && Rec.After(p, o, RecordStart(reset, entry, image), 1).status.Stopped?
            && Judge(p, hash, reset, a, order).Compared?
            && (NoCollision(hash, RecordInput(p, o, reset, entry, image, 1),
                            ReplayInput(p, a, order, ReplayStart(reset, a, order)))
                ==> Judge(p, hash, reset, a, order).expected != Judge(p, hash, reset, a, order).actual)
  {
    hide InitialBuffers, Captured, RecordStart, Rec.After, Recording, RecordInput, ReplayInput, ReplayStart, Judge, WatcherOf;
    hide RestoresExactly;
    CollisionLosesStack(image, order);
    InexactRestoreFails(o, hash, reset, entry, image, order);
  }

  /** A guest that stores one byte and halts. */
  function Storer(a: nat, b: byte): Guest {
    (regs: RegFile, mem: Memory) => Exit(ExitContext(EXIT_HALT, 0), regs, map[a := b])
  }

  lemma StorerRecords(o: Rec.Oracle, start: Machine, a: nat, b: byte)
    requires a in start.mem
    ensures var p := Platform(Storer(a, b), Release);
            var final := Rec.After(p, o, start, 1);
            && final.status.Stopped? && final.log == [] && final.machine == start.(mem := start.mem[a := b])
  {
    hide Rec.After;
    Rec.AfterSucc(Platform(Storer(a, b), Release), o, start, 1);
    assert Apply(start.mem, map[a := b]) == start.mem[a := b];
  }

  /** In the recording the store reaches the tables' buffer; in the replay another region takes it. */
  lemma StoreIsMisdirected(c: HostBuffers, size: nat, order: seq<u64>, a: nat, recorded: Memory, replayed: Memory)
    requires Shaped(c, size) && IsOrder(order, Captured(c).Keys) && TABLE_BASE <= a < TABLE_BASE + TABLE_SIZE
    requires Owner(Mapped(c), a) == 3 && Owner(Listed(order, Captured(c)), a) >= 0
    requires order[Owner(Listed(order, Captured(c)), a)] != TABLE_BASE
    requires a in recorded && recorded[a] != c.table[a - TABLE_BASE]
    ensures Captured(FinalBuffers(c, recorded)) != Reread(order, Captured(c), replayed)
  {
    hide Owner, Listed, PageRound;
    var i := a - TABLE_BASE;
    assert Captured(FinalBuffers(c, recorded))[TABLE_BASE][i] == recorded[a];
    assert Reread(order, Captured(c), replayed)[TABLE_BASE][i] == c.table[i];
  }

  lemma StorerKeepsRegisters(a: nat, b: byte, m: Machine)
    ensures LastRun(Platform(Storer(a, b), Release), m).regs == m.regs
  {
  }

  lemma StoredMismatch(
    o: Rec.Oracle, hash: seq<byte> -> u64, reset: RegFile, entry: u32, image: seq<byte>, order: seq<u64>, a: nat)
    requires |image| > 0 && |image| % 4096 == 0 && StackBase(|image|) + STACK_SIZE < TWO_64
    requires Shaped(InitialBuffers(image), |image|) && IsOrder(order, Captured(InitialBuffers(image)).Keys)
    requires TABLE_BASE <= a < TABLE_BASE + TABLE_SIZE && Owner(Mapped(InitialBuffers(image)), a) == 3
    requires var k := Owner(Listed(order, Captured(InitialBuffers(image))), a); k >= 0 && order[k] != TABLE_BASE
    ensures Mismatches(Platform(Storer(a, OtherByte(InitialBuffers(image).table[a - TABLE_BASE])), Release),
                       o, hash, reset, entry, image, order)
  {
    hide View, Mapped, InitialBuffers, Captured, HashStream, BootRegs, Rec.After, Reread, FinalBuffers;
    hide ReplayStart, Listed, LastRun, Owner, PageRound, Storer;
    var c := InitialBuffers(image);
    var b := OtherByte(c.table[a - TABLE_BASE]);
    var p, start := Platform(Storer(a, b), Release), RecordStart(reset, entry, image);
    ViewAt(Mapped(c), a);
    StorerRecords(o, start, a, b);
    ReplayStartIs(p, o, hash, reset, entry, image, 1, order);
    var recorded := start.mem[a := b];
    var last := LastRun(p, Machine(start.regs, View(Listed(order, Captured(c)))));
    StorerKeepsRegisters(a, b, Machine(start.regs, View(Listed(order, Captured(c)))));
    StoreIsMisdirected(c, |image|, order, a, recorded, last.mem);
    CapturedIsSmall(image);
    FinalShape(c, |image|, recorded);
    HashStreamIsCanonical(GetAll(start.regs, CAPTURE_NAMES), Captured(FinalBuffers(c, recorded)),
                          GetAll(last.regs, CAPTURE_NAMES), Reread(order, Captured(c), last.mem));
  }

  /**
   The claim fails, too, whenever a region that overlaps the tables is mapped after them, even if it
   holds the very bytes of the tables: a guest that stores one byte there and halts is a mismatch.
   */
  lemma MisdirectedStoreFails(
    o: Rec.Oracle, reset: RegFile, entry: u32, image: seq<byte>, order: seq<u64>) returns (p: Platform)
    requires |image| > 0 && |image| % 4096 == 0 && StackBase(|image|) + STACK_SIZE < TWO_64
    requires IsOrder(order, Captured(InitialBuffers(image)).Keys)
    requires !TablesOnTop(Captured(InitialBuffers(image)), order)
    ensures forall hash :: Mismatches(p, o, hash, reset, entry, image, order)
  {
    hide View, Mapped, InitialBuffers, Captured, TablesOnTop, PageRound, Owner, Listed, Mismatches, RecordStart;
    var c := InitialBuffers(image);
    InitialShape(image);
    var a := MisplacedTables(c, |image|, order);
    p := Platform(Storer(a, OtherByte(c.table[a - TABLE_BASE])), Release);
    forall hash ensures Mismatches(p, o, hash, reset, entry, image, order) {
      StoredMismatch(o, hash, reset, entry, image, order, a);
    }
  }

  /** A recording of an image of the given size that stops, an order to restore it in, and a hash without luck. */
  ghost predicate Eligible(
    size: nat, p: Platform, o: Rec.Oracle, hash: seq<byte> -> u64, reset: RegFile, entry: u32, image: seq<byte>,
    n: nat, order: seq<u64>)
  {
    && |image| == size && StackBase(size) + STACK_SIZE < TWO_64
    && Rec.After(p, o, RecordStart(reset, entry, image), n).status.Stopped?
    && IsOrder(order, Captured(InitialBuffers(image)).Keys)
    && var a := Recording(p, o, hash, reset, entry, image, n);
       var r := Rep.ReplayTrace(p, a.events, ReplayStart(reset, a, order));
       r.Replayed? ==>
         NoCollision(hash, RecordInput(p, o, reset, entry, image, n), ReplayInput(p, a, order, r.machine))
  }

  ghost predicate Verifies(
    p: Platform, o: Rec.Oracle, hash: seq<byte> -> u64, reset: RegFile, entry: u32, image: seq<byte>, n: nat,
    order: seq<u64>)
    requires StackBase(|image|) + STACK_SIZE < TWO_64
    requires IsOrder(order, Captured(InitialBuffers(image)).Keys)
  {
    var a := Recording(p, o, hash, reset, entry, image, n);
    Judge(p, hash, reset, a, order) == Compared(a.hash, a.hash)
  }

  /** A mismatch under a hash that tells the recorded input from all others. */
  lemma MismatchFails(
    p: Platform, o: Rec.Oracle, hash: seq<byte> -> u64, reset: RegFile, entry: u32, image: seq<byte>, order: seq<u64>)
    requires StackBase(|image|) + STACK_SIZE < TWO_64 && IsOrder(order, Captured(InitialBuffers(image)).Keys)
    requires Mismatches(p, o, hash, reset, entry, image, order)
    requires forall x :: hash(x) == 0 <==> x == RecordInput(p, o, reset, entry, image, 1)
    ensures Eligible(|image|, p, o, hash, reset, entry, image, 1, order)
    ensures !Verifies(p, o, hash, reset, entry, image, 1, order)
  {
    hide InitialBuffers, Captured, RecordStart, Rec.After, ReplayInput, ReplayStart, PageRound, RecordInput, Judge;
    hide BootRegs;
  }

  /** For every image and order outside the condition: a guest and a hash for which the claim fails. */
  lemma FailureOf(image: seq<byte>, order: seq<u64>, o: Rec.Oracle, reset: RegFile, entry: u32)
    returns (p: Platform, hash: seq<byte> -> u64)
    requires |image| > 0 && |image| % 4096 == 0 && StackBase(|image|) + STACK_SIZE < TWO_64
    requires IsOrder(order, Captured(InitialBuffers(image)).Keys) && !MapsAlike(InitialBuffers(image), order)
    ensures Eligible(|image|, p, o, hash, reset, entry, image, 1, order)
    ensures !Verifies(p, o, hash, reset, entry, image, 1, order)
  {
    hide InitialBuffers, Captured, TablesOnTop, PageRound, RestoresExactly, Mismatches, Eligible, Verifies, RecordInput;
    if |image| == 0x10_0000 {
      p := WatcherOf(image);
      CollisionLosesStack(image, order);
      forall h ensures Mismatches(p, o, h, reset, entry, image, order) {
        InexactRestoreFails(o, h, reset, entry, image, order);
      }
    } else {
      p := MisdirectedStoreFails(o, reset, entry, image, order);
    }
    var s := RecordInput(p, o, reset, entry, image, 1);
    hash := (x: seq<byte>) => if x == s then 0 else 1;
    MismatchFails(p, o, hash, reset, entry, image, order);
  }

  /**
   The exact condition for the product's claim: for every image and every iteration order, replaying
   a recording verifies for all guests, under every hash that does not collide on the two inputs, if
   and only if the stack's address is not the tables' and no region that overlaps the tables comes
   after them in the order.
   */
  lemma VerificationIff(image: seq<byte>, order: seq<u64>, o: Rec.Oracle, reset: RegFile, entry: u32)
    requires |image| > 0 && |image| % 4096 == 0 && StackBase(|image|) + STACK_SIZE < TWO_64
    requires IsOrder(order, Captured(InitialBuffers(image)).Keys)
    ensures |image| != 0x10_0000 && TablesOnTop(Captured(InitialBuffers(image)), order) <==>
            forall p, hash, n :: Eligible(|image|, p, o, hash, reset, entry, image, n, order) ==>
              Verifies(p, o, hash, reset, entry, image, n, order)
  {
    hide InitialBuffers, Captured, RecordStart, Rec.After, Recording, RecordInput, ReplayInput, ReplayStart, Judge;
    hide Rep.ReplayTrace, PageRound, TablesOnTop;
    if MapsAlike(InitialBuffers(image), order) {
      forall p, hash, n | Eligible(|image|, p, o, hash, reset, entry, image, n, order)
        ensures Verifies(p, o, hash, reset, entry, image, n, order)
      {
        VerificationSucceeds(p, o, hash, reset, entry, image, n, order);
      }
    } else {
      var p, hash := FailureOf(image, order, o, reset, entry);
      assert Eligible(|image|, p, o, hash, reset, entry, image, 1, order);
      assert !Verifies(p, o, hash, reset, entry, image, 1, order);
    }
  }

  /** For every image above the limit: a guest, an order and a hash for which the claim fails. */
  lemma FailureAbove(image: seq<byte>, o: Rec.Oracle, reset: RegFile, entry: u32)
    returns (p: Platform, hash: seq<byte> -> u64, order: seq<u64>)
    requires |image| > MAX_IMAGE && |image| % 4096 == 0 && StackBase(|image|) + STACK_SIZE < TWO_64
    ensures Eligible(|image|, p, o, hash, reset, entry, image, 1, order)
    ensures !Verifies(p, o, hash, reset, entry, image, 1, order)
  {
    hide InitialBuffers, Captured, MapsAlike, PageRound, Eligible, Verifies, Shaped;
    InitialShape(image);
    order := CoveringOrder(InitialBuffers(image), |image|);
    p, hash := FailureOf(image, order, o, reset, entry);
  }

  /**
   Over sizes: for every nonzero page-aligned size, verification succeeds for all guests, images,
   orders and hashes that do not collide on the two inputs if and only if the size is at most 0xF0000.
   */
  lemma VerificationLimit(size: nat, o: Rec.Oracle, reset: RegFile, entry: u32)
    requires size > 0 && size % 4096 == 0 && StackBase(size) + STACK_SIZE < TWO_64
    ensures size <= MAX_IMAGE <==>
            forall p, hash, image, n, order :: Eligible(size, p, o, hash, reset, entry, image, n, order) ==>
              Verifies(p, o, hash, reset, entry, image, n, order)
  {
    hide InitialBuffers, Captured, RecordStart, Rec.After, Recording, RecordInput, ReplayInput, ReplayStart, Judge;
    hide Rep.ReplayTrace, PageRound, MapsAlike, Shaped;
    if size <= MAX_IMAGE {
      forall p, hash, image, n, order | Eligible(size, p, o, hash, reset, entry, image, n, order)
        ensures Verifies(p, o, hash, reset, entry, image, n, order)
      {
        InitialShape(image);
        FittingMapsAlike(InitialBuffers(image), size, order);
        VerificationSucceeds(p, o, hash, reset, entry, image, n, order);
      }
    } else {
      var image := Zeros(size);
      var p, hash, order := FailureAbove(image, o, reset, entry);
      assert Eligible(size, p, o, hash, reset, entry, image, 1, order);
      assert !Verifies(p, o, hash, reset, entry, image, 1, order);
    }
  }

  // ---------------------------------------------------------------------------------------------
  // What the comparison compares.

  /** The machines agree on all that the final comparison looks at. */
  ghost predicate ComparedAlike(a: Machine, b: Machine) {
    && a.regs[Rip].low == b.regs[Rip].low && a.regs[Rsp].low == b.regs[Rsp].low
    && a.regs[Rflags].low == b.regs[Rflags].low && a.regs[Cr0].low == b.regs[Cr0].low
    && a.regs[Cr3].low == b.regs[Cr3].low && a.regs[Cr4].low == b.regs[Cr4].low
    && a.mem == b.mem
  }

  lemma SixLowHalves(a: RegFile, b: RegFile)
    ensures SameLow(GetAll(a, CAPTURE_NAMES), GetAll(b, CAPTURE_NAMES)) <==>
            && a[Rip].low == b[Rip].low && a[Rsp].low == b[Rsp].low && a[Rflags].low == b[Rflags].low
            && a[Cr0].low == b[Cr0].low && a[Cr3].low == b[Cr3].low && a[Cr4].low == b[Cr4].low
  {
    var x, y := GetAll(a, CAPTURE_NAMES), GetAll(b, CAPTURE_NAMES);
    hide GetAll;
    assert SameLow(x, y) <==>
      && x[0].low == y[0].low && x[1].low == y[1].low && x[2].low == y[2].low
      && x[3].low == y[3].low && x[4].low == y[4].low && x[5].low == y[5].low;
  }

  lemma RereadEqualIff(order: seq<u64>, regions: RegionMap, a: Memory, b: Memory)
    requires IsOrder(order, regions.Keys) && a.Keys == b.Keys == View(Listed(order, regions)).Keys
    ensures Reread(order, regions, a) == Reread(order, regions, b) <==> a == b
  {
    hide View, Listed, Reread, Settle;
    ListedReread(order, regions, a);
    ListedReread(order, regions, b);
    ViewOfSettle(Listed(order, regions), a);
    ViewOfSettle(Listed(order, regions), b);
  }

  /**
   Unless the hash function collides on the two states, two runs on the same restored regions hash
   alike exactly when the machines agree on the low halves of the six captured registers and on all
   of guest memory.
   */
  lemma EqualHashesIff(hash: seq<byte> -> u64, a: Machine, b: Machine, order: seq<u64>, regions: RegionMap)
    requires IsOrder(order, regions.Keys) && Hashable(regions)
    requires a.mem.Keys == b.mem.Keys == View(Listed(order, regions)).Keys
    requires NoCollision(hash, HashInput(a.regs, Reread(order, regions, a.mem)),
                         HashInput(b.regs, Reread(order, regions, b.mem)))
    ensures hash(HashInput(a.regs, Reread(order, regions, a.mem))) ==
            hash(HashInput(b.regs, Reread(order, regions, b.mem))) <==>
            ComparedAlike(a, b)
  {
    hide HashStream, Reread, View, Listed, GetAll;
    var ra, rb := Reread(order, regions, a.mem), Reread(order, regions, b.mem);
    HashStreamIsCanonical(GetAll(a.regs, CAPTURE_NAMES), ra, GetAll(b.regs, CAPTURE_NAMES), rb);
    SixLowHalves(a.regs, b.regs);
    RereadEqualIff(order, regions, a.mem, b.mem);
  }

  /** The start of a replay does not depend on the events. */
  lemma RestartIs(
    p: Platform, o: Rec.Oracle, hash: seq<byte> -> u64, reset: RegFile, entry: u32, image: seq<byte>, n: nat,
    events: seq<TraceEvent>, order: seq<u64>)
    requires StackBase(|image|) + STACK_SIZE < TWO_64
    requires IsOrder(order, Captured(InitialBuffers(image)).Keys)
    ensures ReplayStart(reset, Recording(p, o, hash, reset, entry, image, n).(events := events), order)
            == Machine(BootRegs(reset, entry, |image|), View(Listed(order, Captured(InitialBuffers(image)))))
  {
    hide LongMode, SetAll, View, InitialBuffers, Captured, RecordInput, Rec.After, RecordStart, BootRegs;
    ReplayStartIs(p, o, hash, reset, entry, image, n, order);
  }

  lemma LastRunKeepsAddresses(p: Platform, events: seq<TraceEvent>, m: Machine)
    requires Rep.ReplayTrace(p, events, m).Replayed?
    ensures LastRun(p, Rep.ReplayTrace(p, events, m).machine).mem.Keys == m.mem.Keys
  {
    hide Rep.ReplayTrace;
    Lockstep.ReplayKeepsAddresses(p, events, m);
  }

  /**
   What a success proves. A recording's snapshot is replayed in an order that maps alike, on any
   platform and with any list of events, such as an altered trace: unless the hash collides, the
   comparison succeeds exactly when the last run ends in a machine that agrees with the recorder's
   final one on the low halves of the six captured registers and on all of memory.
   */
  lemma SuccessIff(
    p: Platform, o: Rec.Oracle, hash: seq<byte> -> u64, reset: RegFile, entry: u32, image: seq<byte>, n: nat,
    q: Platform, events: seq<TraceEvent>, order: seq<u64>)
    requires |image| > 0 && |image| % 4096 == 0 && StackBase(|image|) + STACK_SIZE < TWO_64
    requires IsOrder(order, Captured(InitialBuffers(image)).Keys) && MapsAlike(InitialBuffers(image), order)
    requires var a := Recording(p, o, hash, reset, entry, image, n).(events := events);
             var r := Rep.ReplayTrace(q, events, ReplayStart(reset, a, order));
             r.Replayed? && NoCollision(hash, RecordInput(p, o, reset, entry, image, n), ReplayInput(q, a, order, r.machine))
    ensures var a := Recording(p, o, hash, reset, entry, image, n).(events := events);
            var last := LastRun(q, Rep.ReplayTrace(q, events, ReplayStart(reset, a, order)).machine);
            var final := Rec.After(p, o, RecordStart(reset, entry, image), n).machine;
            Judge(q, hash, reset, a, order) == Compared(a.hash, a.hash) <==> ComparedAlike(final, last)
  {
    hide ReplayStart, Rec.After, Rep.ReplayTrace, HashInput, Captured, InitialBuffers, View, Mapped, BootRegs, Reread;
    hide FinalBuffers, MapsAlike, PageRound, LastRun, Listed, Shaped;
    var start, c := RecordStart(reset, entry, image), InitialBuffers(image);
    var final := Rec.After(p, o, start, n).machine;
    var a := Recording(p, o, hash, reset, entry, image, n).(events := events);
    var last := LastRun(q, Rep.ReplayTrace(q, events, ReplayStart(reset, a, order)).machine);
    InitialShape(image);
    RestartIs(p, o, hash, reset, entry, image, n, events, order);
    AlikeRestores(c, |image|, order);
    Lockstep.MappedAddressesStay(p, o, start, n);
    LastRunKeepsAddresses(q, events, ReplayStart(reset, a, order));
    FinalCapturesAgree(c, |image|, order, final.mem);
    CapturedIsSmall(image);
    EqualHashesIff(hash, final, last, order, Captured(c));
  }

  /** RAX, which both commands print, is not compared, and neither is any other register but the six. */
  lemma OtherRegistersAreNotCompared(regs: RegFile, r: RegName, v: RegValue, regions: RegionMap)
    requires r !in {Rip, Rsp, Rflags, Cr0, Cr3, Cr4}
    ensures HashInput(regs[r := v], regions) == HashInput(regs, regions)
  {
    hide HashStream;
    assert GetAll(regs[r := v], CAPTURE_NAMES) == GetAll(regs, CAPTURE_NAMES);
  }

  /** Two machines with the same memory and RAX 0 and 1 compare equal under every hash. */
  lemma RaxIsNotCompared(hash: seq<byte> -> u64, m: Machine, order: seq<u64>, regions: RegionMap)
    requires forall g :: g in order ==> g in regions
    ensures var a, b := m.(regs := m.regs[Rax := Reg64(0)]), m.(regs := m.regs[Rax := Reg64(1)]);
            && a != b
            && hash(HashInput(a.regs, Reread(order, regions, a.mem))) ==
               hash(HashInput(b.regs, Reread(order, regions, b.mem)))
  {
    hide HashInput, Reread;
    var a, b := m.(regs := m.regs[Rax := Reg64(0)]), m.(regs := m.regs[Rax := Reg64(1)]);
    assert a.regs[Rax] != b.regs[Rax];
    OtherRegistersAreNotCompared(m.regs, Rax, Reg64(0), Reread(order, regions, m.mem));
    OtherRegistersAreNotCompared(m.regs, Rax, Reg64(1), Reread(order, regions, m.mem));
  }

  // ---------------------------------------------------------------------------------------------
  // The record command.

  /** Capture the four host buffers, in the command's order. */
  method CaptureMemoryLayout(image: array<byte>, stack: array<byte>, nul: array<byte>, table: array<byte>)
    returns (s: Snapshot)
    requires StackBase(image.Length) < TWO_64
    ensures fresh(s) && s.Valid() && s.registers == [] && fresh(s.Buffers())
    ensures s.Contents() == Captured(HostBuffers(image[..], stack[..], nul[..], table[..]))
  {
    hide PageRound;
    s := new Snapshot();
    ghost var c := HostBuffers(image[..], stack[..], nul[..], table[..]);
    s.CaptureRegion(0, nul);
    assert s.Contents() == map[0 := c.nul];
    s.CaptureRegion(IMAGE_BASE, image);
    assert s.Contents() == map[0 := c.nul][IMAGE_BASE := c.image];
    s.CaptureRegion(StackBase(image.Length), stack);
    assert s.Contents() == map[0 := c.nul][IMAGE_BASE := c.image][StackBase(|c.image|) := c.stack];
    s.CaptureRegion(TABLE_BASE, table);
    assert s.Contents() == Captured(c);
  }

  /** The order in which iterating over a region map happens to yield its keys. */
  method IterationOrder(regions: map<u64, array<byte>>) returns (order: seq<u64>)
    ensures IsOrder(order, regions.Keys)
  {
    var keys := regions.Keys;
    order := [];
    while keys != {}
      invariant keys <= regions.Keys
      invariant IsOrder(order, regions.Keys - keys)
      decreases |keys|
    {
      var g :| g in keys;
      keys := keys - {g};
      var longer := order + [g];
      assert forall x :: x in longer <==> x in order || x == g;
      order := longer;
    }
  }

  /** The four mappings of the record command. */
  ghost function MappingsOf(image: array<byte>, stack: array<byte>, nul: array<byte>, table: array<byte>): seq<Mapping> {
    [Mapping(IMAGE_BASE, image), Mapping(StackBase(image.Length), stack), Mapping(0, nul), Mapping(TABLE_BASE, table)]
  }

  lemma MappingsShowContents(
    partition: Partition, image: array<byte>, stack: array<byte>, nul: array<byte>, table: array<byte>)
    requires partition.mappings == MappingsOf(image, stack, nul, table)
    ensures RegionsOf(partition.mappings) == Mapped(HostBuffers(image[..], stack[..], nul[..], table[..]))
    ensures partition.Mem() == View(Mapped(HostBuffers(image[..], stack[..], nul[..], table[..])))
  {
    hide View;
    assert RegionsOf(partition.mappings) == Mapped(HostBuffers(image[..], stack[..], nul[..], table[..]));
  }

  method MapGuest(image: array<byte>)
    returns (partition: Partition, stack: array<byte>, nul: array<byte>, table: array<byte>)
    requires StackBase(image.Length) < TWO_64
    ensures fresh(partition) && fresh(stack) && fresh(nul) && fresh(table) && partition.Valid()
    ensures partition.mappings == MappingsOf(image, stack, nul, table)
    ensures stack.Length == STACK_SIZE && nul.Length == NULL_SIZE && table.Length == TABLE_SIZE
    ensures HostBuffers(image[..], stack[..], nul[..], table[..]) == InitialBuffers(image[..])
  {
    hide TableBytes;
    partition := new Partition();
    partition.MapGpaRange(IMAGE_BASE, image);
    stack := new byte[STACK_SIZE](_ => 0);
    partition.MapGpaRange(StackBase(image.Length), stack);
    nul := new byte[NULL_SIZE](_ => 0);
    partition.MapGpaRange(0, nul);
    table := CreateIdentityMapping(Debug, TABLE_BASE);
    partition.MapGpaRange(TABLE_BASE, table);
    assert stack[..] == Zeros(STACK_SIZE) && nul[..] == Zeros(NULL_SIZE);
  }

  method BootVcpu(reset: RegFile, entry: u32, size: nat) returns (vcpu: Vcpu)
    requires StackBase(size) + STACK_SIZE < TWO_64
    ensures fresh(vcpu) && vcpu.regs == BootRegs(reset, entry, size)
  {
    hide SetAll;
    vcpu := new Vcpu(reset);
    vcpu.SetupLongMode(TABLE_BASE);
    vcpu.SetRegisters([Rip, Rsp], [Reg64(IMAGE_BASE + entry), Reg64(StackBase(size) + STACK_SIZE)]);
  }

  lemma BuffersOfGuest(image: array<byte>, stack: array<byte>, nul: array<byte>, table: array<byte>)
    ensures BuffersOf(MappingsOf(image, stack, nul, table)) == {image, stack, nul, table}
  {
    var ms := MappingsOf(image, stack, nul, table);
    assert ms[0] in ms && ms[1] in ms && ms[2] in ms && ms[3] in ms;
  }

  /** Everything up to the first instruction: mappings, initial snapshot, booted processor. */
  method Prepare(reset: RegFile, entry: u32, image: array<byte>)
    returns (partition: Partition, vcpu: Vcpu, snapshot: Snapshot, stack: array<byte>, nul: array<byte>, table: array<byte>)
    requires StackBase(image.Length) + STACK_SIZE < TWO_64
    ensures fresh(partition) && fresh(vcpu) && fresh(snapshot) && fresh(stack) && fresh(nul) && fresh(table)
    ensures partition.Valid() && partition.mappings == MappingsOf(image, stack, nul, table)
    ensures partition.Buffers() == {image, stack, nul, table}
    ensures stack.Length == STACK_SIZE && nul.Length == NULL_SIZE && table.Length == TABLE_SIZE
    ensures HostBuffers(image[..], stack[..], nul[..], table[..]) == InitialBuffers(image[..])
    ensures Machine(vcpu.regs, partition.Mem()) == RecordStart(reset, entry, image[..])
    ensures RegionsOf(partition.mappings) == Mapped(InitialBuffers(image[..]))
    ensures snapshot.Valid() && snapshot.Buffers() !! partition.Buffers()
    ensures snapshot.Contents() == Captured(InitialBuffers(image[..]))
    ensures snapshot.registers == GetAll(BootRegs(reset, entry, image.Length), CAPTURE_NAMES)
  {
    hide View, TableBytes, Captured, Mapped, BootRegs;
    partition, stack, nul, table := MapGuest(image);
    snapshot := CaptureMemoryLayout(image, stack, nul, table);
    vcpu := BootVcpu(reset, entry, image.Length);
    ghost var contents := snapshot.Contents();
    snapshot.CaptureRegisters(vcpu, CAPTURE_NAMES);
    assert snapshot.Contents() == contents;
    MappingsShowContents(partition, image, stack, nul, table);
    BuffersOfGuest(image, stack, nul, table);
  }

  method CaptureAndHash(hash: seq<byte> -> u64, vcpu: Vcpu, snapshot: Snapshot) returns (h: u64)
    modifies snapshot
    ensures h == hash(HashInput(vcpu.regs, old(snapshot.Contents())))
  {
    hide HashStream;
    ghost var contents := snapshot.Contents();
    snapshot.CaptureRegisters(vcpu, CAPTURE_NAMES);
    assert snapshot.Contents() == contents;
    h := snapshot.HashState(hash);
    assert snapshot.Contents() == contents;
  }

  /** Capture the final state and hash it. */
  method HashFinalState(
    hash: seq<byte> -> u64, vcpu: Vcpu, image: array<byte>, stack: array<byte>, nul: array<byte>, table: array<byte>)
    returns (h: u64)
    requires StackBase(image.Length) < TWO_64
    ensures h == hash(HashInput(vcpu.regs, Captured(HostBuffers(image[..], stack[..], nul[..], table[..]))))
  {
    hide Captured, HashStream;
    ghost var c := HostBuffers(image[..], stack[..], nul[..], table[..]);
    var final := CaptureMemoryLayout(image, stack, nul, table);
    assert c == HostBuffers(image[..], stack[..], nul[..], table[..]);
    h := CaptureAndHash(hash, vcpu, final);
    assert c == HostBuffers(image[..], stack[..], nul[..], table[..]);
  }

  /** Hash the final state and encode it with the initial snapshot and the events, in iteration order. */
  method WriteArchive(
    hash: seq<byte> -> u64, vcpu: Vcpu, snapshot: Snapshot,
    image: array<byte>, stack: array<byte>, nul: array<byte>, table: array<byte>, events: seq<TraceEvent>,
    ghost regions: RegionMap, ghost c: HostBuffers) returns (file: seq<byte>, ghost order: seq<u64>)
    requires StackBase(image.Length) < TWO_64
    requires regions == snapshot.Contents() && c == HostBuffers(image[..], stack[..], nul[..], table[..])
    ensures IsOrder(order, regions.Keys)
    ensures file == Encode(order, Archive(regions, snapshot.registers, events,
                                          hash(HashInput(vcpu.regs, Captured(c)))))
  {
    hide Encode, Captured, HashStream;
    var h := HashFinalState(hash, vcpu, image, stack, nul, table);
    assert c == HostBuffers(image[..], stack[..], nul[..], table[..]);
    var contents := snapshot.Contents();
    assert contents == regions && regions.Keys == snapshot.regions.Keys;
    var visited := IterationOrder(snapshot.regions);
    order := visited;
    file := Encode(visited, Archive(contents, snapshot.registers, events, h));
  }

  /** Run the record engine; a snapshot that shares no buffer with the guest keeps its contents. */
  method Execute(p: Platform, o: Rec.Oracle, partition: Partition, vcpu: Vcpu, ghost snapshot: Snapshot, ghost n: nat)
    returns (status: Rec.Status, events: seq<TraceEvent>)
    requires partition.Valid() && snapshot.Buffers() !! partition.Buffers()
    requires !Rec.After(p, o, Machine(vcpu.regs, partition.Mem()), n).status.Running?
    modifies vcpu, partition.Buffers()
    ensures var final := Rec.After(p, o, old(Machine(vcpu.regs, partition.Mem())), n);
            status == final.status && events == final.log && Machine(vcpu.regs, partition.Mem()) == final.machine
    ensures Evolves(old(RegionsOf(partition.mappings)), RegionsOf(partition.mappings))
    ensures snapshot.Contents() == old(snapshot.Contents())
  {
    hide Rec.From, View, Evolves;
    ghost var rs, contents := RegionsOf(partition.mappings), snapshot.Contents();
    var engine := new RecordEngine(partition, vcpu);
    assert RegionsOf(partition.mappings) == rs;
    ghost var count;
    status, count := engine.Run(p, o, n);
    events := engine.logger.events;
    assert snapshot.Contents() == contents;
  }

  /**
   The record command from the loaded image on, for every image size. `None` is the panic on a
   failed run; otherwise the file is the encoding of `Recording`, in some iteration order.
   */
  method RecordCommand(
    p: Platform, o: Rec.Oracle, hash: seq<byte> -> u64, reset: RegFile, entry: u32, image: array<byte>, ghost n: nat)
    returns (file: Option<seq<byte>>)
    requires image.Length > 0 && image.Length % 4096 == 0 && StackBase(image.Length) + STACK_SIZE < TWO_64
    requires !Rec.After(p, o, RecordStart(reset, entry, image[..]), n).status.Running?
    modifies image
    ensures file.Some? <==> Rec.After(p, o, RecordStart(reset, entry, old(image[..])), n).status.Stopped?
    ensures file.Some? ==>
      var a := Recording(p, o, hash, reset, entry, old(image[..]), n);
      exists order :: IsOrder(order, a.regions.Keys) && file.value == Encode(order, a)
  {
    hide View, TableBytes, Captured, Mapped, Rec.After, HashInput, BootRegs, Encode, RegionsOf, Evolves, FinalBuffers;
    hide InitialBuffers, GetAll, MappingsOf, RecordStart;
    ghost var bytes := image[..];
    var partition, vcpu, snapshot, stack, nul, table := Prepare(reset, entry, image);
    var status, events := Execute(p, o, partition, vcpu, snapshot, n);
    if !status.Stopped? {
      return None;
    }
    MappingsShowContents(partition, image, stack, nul, table);
    ghost var c := HostBuffers(image[..], stack[..], nul[..], table[..]);
    ghost var written := snapshot.Contents();
    EvolvedBuffers(InitialBuffers(bytes), c);
    assert RecordInput(p, o, reset, entry, bytes, n) == HashInput(vcpu.regs, Captured(c));
    var encoded, order := WriteArchive(hash, vcpu, snapshot, image, stack, nul, table, events, written, c);
    assert encoded == Encode(order, Recording(p, o, hash, reset, entry, bytes, n));
    file := Some(encoded);
  }

  // ---------------------------------------------------------------------------------------------
  // The replay command.

  method Allocate(bytes: seq<byte>) returns (buffer: array<byte>)
    ensures fresh(buffer) && buffer[..] == bytes
  {
    buffer := new byte[|bytes|](_ => 0);
    forall i | 0 <= i < |bytes| {
      buffer[i] := bytes[i];
    }
  }

  /** Deserializing a snapshot puts every region in a buffer of its own. */
  method LoadSnapshot(a: Archive) returns (s: Snapshot)
    ensures fresh(s) && s.Valid() && fresh(s.Buffers())
    ensures s.Contents() == a.regions && s.registers == a.registers
  {
    s := new Snapshot();
    var keys := a.regions.Keys;
    while keys != {}
      invariant fresh(s) && s.Valid() && forall g :: g in s.regions ==> fresh(s.regions[g])
      invariant keys <= a.regions.Keys && s.regions.Keys == a.regions.Keys - keys
      invariant forall g :: g in s.regions ==> s.regions[g][..] == a.regions[g]
      decreases |keys|
    {
      var g :| g in keys;
      var buffer := Allocate(a.regions[g]);
      s.regions := s.regions[g := buffer];
      keys := keys - {g};
    }
    s.registers := a.registers;
  }

  lemma {:induction false} EndedEarly(p: Platform, events: seq<TraceEvent>, i: nat, m: Machine)
    requires i <= |events| && !Rep.ReplayTrace(p, events[..i], m).Replayed?
    ensures Rep.ReplayTrace(p, events, m) == Rep.ReplayTrace(p, events[..i], m)
    decreases |events|
  {
    hide Rep.ReplayEvent;
    if i == |events| {
      assert events[..i] == events;
    } else {
      assert events[..|events| - 1][..i] == events[..i];
      EndedEarly(p, events[..|events| - 1], i, m);
    }
  }

  lemma ReturnedBound(p: Platform, e: EventType, m: Machine)
    ensures Rep.ReplayEvent(p, e, m).Returned? ==>
      !Rep.Loop(p, e, m, Rep.ReplayEvent(p, e, m).iterations).outcome.Spinning?
  {
  }

  /** Replay all events in order; `false` is the panic on a failed call. */
  method ReplayAll(engine: ReplayEngine, p: Platform, events: seq<TraceEvent>) returns (ok: bool)
    requires engine.Ready() && engine.partition.Valid()
    requires !Rep.ReplayTrace(p, events, engine.Now()).Hung?
    modifies engine.ActiveVcpu(), engine.partition.Buffers()
    ensures ok == Rep.ReplayTrace(p, events, old(engine.Now())).Replayed?
    ensures ok ==> engine.Now() == Rep.ReplayTrace(p, events, old(engine.Now())).machine
    ensures Evolves(old(RegionsOf(engine.partition.mappings)), RegionsOf(engine.partition.mappings))
  {
    hide Rep.ReplayEvent, View, RegionsOf, Evolves;
    ghost var m, rs := engine.Now(), RegionsOf(engine.partition.mappings);
    EvolvesFromItself(rs);
    for i := 0 to |events|
      invariant Evolves(rs, RegionsOf(engine.partition.mappings))
      invariant Rep.ReplayTrace(p, events[..i], m).Replayed?
      invariant engine.Now() == Rep.ReplayTrace(p, events[..i], m).machine
    {
      ghost var call := Rep.ReplayEvent(p, events[i].event, engine.Now());
      assert events[..i + 1][..i] == events[..i];
      if !Rep.ReplayTrace(p, events[..i + 1], m).Replayed? {
        EndedEarly(p, events, i + 1, m);
      }
      ReturnedBound(p, events[i].event, engine.Now());
      ghost var before := RegionsOf(engine.partition.mappings);
      var outcome := engine.ReplayEvent(p, events[i], call.iterations);
      EvolvesThrough(rs, before, RegionsOf(engine.partition.mappings));
      if outcome.Faulted? {
        return false;
      }
    }
    assert events[..|events|] == events;
    ok := true;
  }

  /** A fresh partition with one processor in long mode, registered as the active one. */
  method NewReplayEngine(reset: RegFile) returns (engine: ReplayEngine, vcpu: Vcpu)
    ensures fresh(engine) && fresh(vcpu) && fresh(engine.partition)
    ensures engine.Ready() && engine.ActiveVcpu() == vcpu && engine.partition.mappings == []
    ensures vcpu.regs == LongMode(reset, TABLE_BASE)
  {
    hide LongMode;
    vcpu := new Vcpu(reset);
    vcpu.SetupLongMode(TABLE_BASE);
    var partition := new Partition();
    engine := new ReplayEngine(partition, 0);
    engine.RegisterVcpu(0, vcpu);
  }

  lemma MappedBuffersAreOwned(snapshot: Snapshot, order: seq<u64>)
    requires IsOrder(order, snapshot.regions.Keys)
    ensures BuffersOf(MappingsIn(order, snapshot.regions)) <= snapshot.Buffers()
  {
    var ms := MappingsIn(order, snapshot.regions);
    forall b | b in BuffersOf(ms) ensures b in snapshot.Buffers() {
      var m :| m in ms && m.buf == b;
      var i :| 0 <= i < |order| && m == ms[i];
      assert order[i] in order;
    }
  }

  /** A new partition and processor with the archive's snapshot restored into them. */
  method Restore(reset: RegFile, a: Archive)
    returns (engine: ReplayEngine, vcpu: Vcpu, snapshot: Snapshot, ghost order: seq<u64>)
    requires a.registers == [] || |a.registers| == |CAPTURE_NAMES|
    ensures fresh(engine) && fresh(vcpu) && fresh(snapshot) && fresh(engine.partition)
    ensures fresh(engine.partition.Buffers())
    ensures engine.Ready() && engine.ActiveVcpu() == vcpu && engine.partition.Valid()
    ensures IsOrder(order, a.regions.Keys) && engine.Now() == ReplayStart(reset, a, order)
    ensures snapshot.regions.Keys == a.regions.Keys && snapshot.Contents() == a.regions
    ensures engine.partition.mappings == MappingsIn(order, snapshot.regions)
    ensures RegionsOf(engine.partition.mappings) == Listed(order, a.regions)
  {
    hide View, RegionsOf, LongMode, SetAll, Listed, MappingsIn, IsOrder;
    snapshot := LoadSnapshot(a);
    engine, vcpu := NewReplayEngine(reset);
    assert snapshot.Contents() == a.regions && snapshot.Contents().Keys == snapshot.regions.Keys;
    order := engine.RestoreSnapshot(snapshot, CAPTURE_NAMES);
    assert snapshot.Contents() == a.regions;
    SnapshotIsGuestMemory(snapshot, engine.partition, order);
    MappedBuffersAreOwned(snapshot, order);
  }

  /** The snapshot's buffers hold what rereading guest memory in the mapping order gives. */
  lemma SnapshotIsReread(snapshot: Snapshot, partition: Partition, regions: RegionMap, order: seq<u64>)
    requires IsOrder(order, snapshot.regions.Keys)
    requires partition.mappings == MappingsIn(order, snapshot.regions)
    requires regions.Keys == snapshot.regions.Keys
    requires Evolves(Listed(order, regions), RegionsOf(partition.mappings))
    ensures snapshot.Contents() == Reread(order, regions, partition.Mem())
  {
    hide View, RegionsOf, Reread, Listed, MappingsIn, Evolves;
    SnapshotIsGuestMemory(snapshot, partition, order);
    assert snapshot.Contents().Keys == snapshot.regions.Keys;
    EvolvedIsReread(order, regions, snapshot.Contents());
  }

  method RunOnce(p: Platform, partition: Partition, vcpu: Vcpu)
    requires partition.Valid()
    modifies vcpu, partition.Buffers()
    ensures Machine(vcpu.regs, partition.Mem()) == LastRun(p, old(Machine(vcpu.regs, partition.Mem())))
    ensures Evolves(old(RegionsOf(partition.mappings)), RegionsOf(partition.mappings))
  {
    hide View, RegionsOf, Evolves;
    var _ := partition.Run(p.guest, vcpu);
  }

  /**
   The one remaining run, then the hash of the restored snapshot, whose buffers the guest has been
   writing since they held `regions`.
   */
  method FinishReplay(
    p: Platform, hash: seq<byte> -> u64, partition: Partition, vcpu: Vcpu, snapshot: Snapshot,
    ghost regions: RegionMap, ghost order: seq<u64>) returns (actual: u64)
    requires partition.Valid() && IsOrder(order, snapshot.regions.Keys)
    requires partition.mappings == MappingsIn(order, snapshot.regions)
    requires regions.Keys == snapshot.regions.Keys
    requires Evolves(Listed(order, regions), RegionsOf(partition.mappings))
    modifies vcpu, snapshot, partition.Buffers()
    ensures var final := LastRun(p, old(Machine(vcpu.regs, partition.Mem())));
            actual == hash(HashInput(final.regs, Reread(order, regions, final.mem)))
  {
    hide View, RegionsOf, HashInput, Reread, Listed, MappingsIn, LastRun, Evolves;
    ghost var before := RegionsOf(partition.mappings);
    RunOnce(p, partition, vcpu);
    EvolvesThrough(Listed(order, regions), before, RegionsOf(partition.mappings));
    SnapshotIsReread(snapshot, partition, regions, order);
    actual := CaptureAndHash(hash, vcpu, snapshot);
  }

  lemma SomeOrder(keys: set<u64>) returns (order: seq<u64>)
    ensures IsOrder(order, keys)
  {
    if keys == {} {
      order := [];
    } else {
      var g :| g in keys;
      order := OrderEndingWith(keys, g);
    }
  }

  /**
   The replay command on the bytes of a file whose replay does not hang: the verdict is `Judge`'s
   for some iteration order of the region map, overlapping regions or not; call by call, it is the one
   that `Concludes` describes.
   */
  method ReplayCommand(p: Platform, hash: seq<byte> -> u64, reset: RegFile, file: seq<byte>) returns (verdict: Verdict)
    requires Decode(file).Good? ==>
      forall order :: IsOrder(order, Decode(file).value.regions.Keys) ==>
        Judge(p, hash, reset, Decode(file).value, order) != Hangs
    ensures Decode(file).Bad? <==> verdict == Undecodable
    ensures Decode(file).Good? ==>
      exists order ::
        && IsOrder(order, Decode(file).value.regions.Keys)
        && verdict == Judge(p, hash, reset, Decode(file).value, order)
        && Concludes(p, hash, reset, Decode(file).value, order, verdict)
  {
    hide View, RegionsOf, HashInput, ReplayStart, Rep.ReplayTrace, Decode, Listed, LastRun, Reread, Evolves, MappingsIn;
    hide Concludes;
    var decoded := Decode(file);
    if decoded.Bad? {
      return Undecodable;
    }
    var a := decoded.value;
    if a.registers != [] && |a.registers| != |CAPTURE_NAMES| {
      ghost var order := SomeOrder(a.regions.Keys);
      JudgeConcludes(p, hash, reset, a, order);
      return Panicked;
    }
    var engine, vcpu, snapshot, order := Restore(reset, a);
    assert Judge(p, hash, reset, a, order) != Hangs;
    JudgeConcludes(p, hash, reset, a, order);
    var ok := ReplayAll(engine, p, a.events);
    if !ok {
      return Panicked;
    }
    var actual := FinishReplay(p, hash, engine.partition, vcpu, snapshot, a.regions, order);
    verdict := Compared(a.hash, actual);
  }

  // ---------------------------------------------------------------------------------------------
  // Record, then replay.

  lemma RecordingIsEncodable(
    p: Platform, o: Rec.Oracle, hash: seq<byte> -> u64, reset: RegFile, entry: u32, image: seq<byte>, n: nat)
    requires |image| > 0 && |image| % 4096 == 0 && StackBase(|image|) + STACK_SIZE < TWO_64
    requires |Rec.After(p, o, RecordStart(reset, entry, image), n).log| < TWO_64
    ensures Encodable(Recording(p, o, hash, reset, entry, image, n))
  {
    hide RecordStart, Rec.After, RecordInput, Captured, InitialBuffers, ValidEvent, BootRegs;
    var a := Recording(p, o, hash, reset, entry, image, n);
    CapturedIsSmall(image);
    forall i | 0 <= i < |a.events| ensures ValidEvent(a.events[i].event) {
      Lockstep.LogIsFaithful(p, o, RecordStart(reset, entry, image), n, i);
      OnlySyscallsHaveLengths(a.events[i].event);
    }
  }

  lemma RecordingRegions(
    p: Platform, o: Rec.Oracle, hash: seq<byte> -> u64, reset: RegFile, entry: u32, image: seq<byte>, n: nat)
    requires StackBase(|image|) + STACK_SIZE < TWO_64
    ensures Recording(p, o, hash, reset, entry, image, n).regions == Captured(InitialBuffers(image))
  {
    hide RecordStart, Rec.After, RecordInput, Captured;
  }

  /**
   Both commands in sequence, for every image size. Whenever recording gets to write its file,
   replaying that file gives the verdict on that recording in some iteration order; and in an order
   that maps alike, which for an image that fits the layout is any order, that is the comparison of
   two equal hashes.
   */
  method RecordThenReplay(
    p: Platform, o: Rec.Oracle, hash: seq<byte> -> u64, reset: RegFile, entry: u32, image: array<byte>, ghost n: nat)
    returns (verdict: Option<Verdict>)
    requires image.Length > 0 && image.Length % 4096 == 0 && StackBase(image.Length) + STACK_SIZE < TWO_64
    requires !Rec.After(p, o, RecordStart(reset, entry, image[..]), n).status.Running?
    requires |Rec.After(p, o, RecordStart(reset, entry, image[..]), n).log| < TWO_64
    requires forall order ::
      IsOrder(order, Captured(InitialBuffers(image[..])).Keys) && !MapsAlike(InitialBuffers(image[..]), order) ==>
        Judge(p, hash, reset, Recording(p, o, hash, reset, entry, image[..], n), order) != Hangs
    modifies image
    ensures verdict.Some? <==> Rec.After(p, o, RecordStart(reset, entry, old(image[..])), n).status.Stopped?
    ensures verdict.Some? ==>
      var a := Recording(p, o, hash, reset, entry, old(image[..]), n);
      exists order ::
        && IsOrder(order, a.regions.Keys) && verdict.value == Judge(p, hash, reset, a, order)
        && (MapsAlike(InitialBuffers(old(image[..])), order) ==> verdict.value == Compared(a.hash, a.hash))
    ensures verdict.Some? && image.Length <= MAX_IMAGE ==>
      verdict.value.Compared? && verdict.value.expected == verdict.value.actual
  {
    hide RecordStart, Rec.After, Recording, Judge, Decode, Encode, InitialBuffers, Captured, MapsAlike, PageRound, Shaped;
    ghost var bytes := image[..];
    ghost var a := Recording(p, o, hash, reset, entry, bytes, n);
    RecordingRegions(p, o, hash, reset, entry, bytes, n);
    var file := RecordCommand(p, o, hash, reset, entry, image, n);
    if file.None? {
      return None;
    }
    RecordingIsEncodable(p, o, hash, reset, entry, bytes, n);
    ghost var written :| IsOrder(written, a.regions.Keys) && file.value == Encode(written, a);
    assert file.value + [] == file.value;
    RoundTrip(written, a, []);
    forall order | IsOrder(order, a.regions.Keys) && MapsAlike(InitialBuffers(bytes), order)
      ensures Judge(p, hash, reset, a, order) == Compared(a.hash, a.hash)
    {
      VerificationSucceeds(p, o, hash, reset, entry, bytes, n, order);
    }
    InitialShape(bytes);
    AllOrdersMapAlikeIff(InitialBuffers(bytes), |bytes|);
    var v := ReplayCommand(p, hash, reset, file.value);
    verdict := Some(v);
  }

  /**
   From the executable's header, section table and raw bytes to the verdict on its recording, which
   for an image of at most 0xF0000 bytes is the comparison of two equal hashes.
   */
  method RecordThenReplayExecutable(
    p: Platform, o: Rec.Oracle, hash: seq<byte> -> u64, reset: RegFile, entry: u32,
    sizeOfImage: u32, sections: seq<Section>, raw: seq<byte>, ghost n: nat) returns (verdict: Option<Verdict>)
    requires sizeOfImage > 0 && AllInBounds(sections, raw, PageRound(sizeOfImage))
    requires var start := RecordStart(reset, entry, Image(sections, raw, PageRound(sizeOfImage)));
             !Rec.After(p, o, start, n).status.Running? && |Rec.After(p, o, start, n).log| < TWO_64
    requires var image := Image(sections, raw, PageRound(sizeOfImage));
      forall order ::
        IsOrder(order, Captured(InitialBuffers(image)).Keys) && !MapsAlike(InitialBuffers(image), order) ==>
          Judge(p, hash, reset, Recording(p, o, hash, reset, entry, image, n), order) != Hangs
    ensures var start := RecordStart(reset, entry, Image(sections, raw, PageRound(sizeOfImage)));
            verdict.Some? <==> Rec.After(p, o, start, n).status.Stopped?
    ensures verdict.Some? ==>
      var a := Recording(p, o, hash, reset, entry, Image(sections, raw, PageRound(sizeOfImage)), n);
      exists order :: IsOrder(order, a.regions.Keys) && verdict.value == Judge(p, hash, reset, a, order)
    ensures verdict.Some? && sizeOfImage <= MAX_IMAGE ==>
      verdict.value.Compared? && verdict.value.expected == verdict.value.actual
  {
    hide RecordStart, Rec.After, Recording, Judge, InitialBuffers, Captured, Image, AllInBounds, MapsAlike;
    HeaderSizeDecides(sizeOfImage);
    var image := MapIntoMemory(sizeOfImage, sections, raw);
    verdict := RecordThenReplay(p, o, hash, reset, entry, image, n);
  }
}
