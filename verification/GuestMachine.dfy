/**
 The guest machine: a register file, the mapped physical memory, and an arbitrary deterministic
 guest. One call of `Run` is one trip into the hypervisor, up to the next VM exit.
 */
module GuestMachine {
  import opened Words

  datatype RegName =
    | Rax | Rbx | Rcx | Rdx | Rip | Rsp | Rflags | Cr0 | Cr3 | Cr4 | Efer
    | Cs | Ds | Es | Fs | Gs | Ss | Tr | Ldtr
    | Other(code: nat)

  /** The 16-byte register union: `low` is its `Reg64` member, `high` the upper eight bytes. */
  datatype RegValue = RegValue(low: u64, high: u64)

  function Reg64(v: u64): RegValue {
    RegValue(v, 0)
  }

  /** The `Segment` member of the union: base, then limit, selector and attributes. */
  function Segment(base: u64, limit: u32, selector: int, attributes: int): RegValue
    requires 0 <= selector < 0x1_0000 && 0 <= attributes < 0x1_0000
  {
    RegValue(base, limit + selector * TWO_32 + attributes * 0x1_0000_0000_0000)
  }

  /** Every register of the virtual processor, including those the engines never name. */
  type RegFile = m: imap<RegName, RegValue> | forall r: RegName :: r in m
    ghost witness imap r: RegName | true :: RegValue(0, 0)

  function SetAll(regs: RegFile, names: seq<RegName>, values: seq<RegValue>): RegFile
    requires |names| == |values|
  {
    if names == [] then regs
    else
      var n := |names| - 1;
      SetAll(regs, names[..n], values[..n])[names[n] := values[n]]
  }

  function GetAll(regs: RegFile, names: seq<RegName>): (values: seq<RegValue>)
    ensures |values| == |names|
    ensures forall i :: 0 <= i < |names| ==> values[i] == regs[names[i]]
  {
    if names == [] then [] else GetAll(regs, names[..|names| - 1]) + [regs[names[|names| - 1]]]
  }

  /** Writing by name list touches the named registers only. */
  lemma {:induction false} SetAllFrame(regs: RegFile, names: seq<RegName>, values: seq<RegValue>, r: RegName)
    requires |names| == |values| && r !in names
    ensures SetAll(regs, names, values)[r] == regs[r]
  {
    if names != [] {
      var n := |names| - 1;
      SetAllFrame(regs, names[..n], values[..n], r);
    }
  }

  lemma SetNone(regs: RegFile)
    ensures SetAll(regs, [], []) == regs
  {
  }

  lemma SetAllLast(regs: RegFile, names: seq<RegName>, values: seq<RegValue>)
    requires |names| == |values| && names != []
    ensures var n := |names| - 1;
            SetAll(regs, names, values) == SetAll(regs, names[..n], values[..n])[names[n] := values[n]]
  {
  }

  lemma GetAllLast(regs: RegFile, names: seq<RegName>)
    requires names != []
    ensures var n := |names| - 1;
            GetAll(regs, names)[..n] == GetAll(regs, names[..n]) && GetAll(regs, names)[n] == regs[names[n]]
  {
  }

  /** The last value written for a name is the one that stays. */
  lemma {:induction false} SetAllLookup(regs: RegFile, names: seq<RegName>, values: seq<RegValue>, i: nat)
    requires |names| == |values| && i < |names| && names[i] !in names[i + 1..]
    ensures SetAll(regs, names, values)[names[i]] == values[i]
    decreases |names|
  {
    hide SetAll;
    var n := |names| - 1;
    SetAllLast(regs, names, values);
    if i < n {
      assert names[n] in names[i + 1..];
      assert names[..n][i + 1..] <= names[i + 1..];
      SetAllLookup(regs, names[..n], values[..n], i);
    }
  }

  /** Restoring captured values makes the named registers equal to the captured file. */
  lemma {:induction false} RestoreLookup(base: RegFile, regs: RegFile, names: seq<RegName>, r: RegName)
    ensures SetAll(base, names, GetAll(regs, names))[r] == if r in names then regs[r] else base[r]
  {
    hide GetAll, SetAll;
    if names == [] {
      SetNone(base);
    } else {
      var n := |names| - 1;
      RestoreLookup(base, regs, names[..n], r);
      GetAllLast(regs, names);
      SetAllLast(base, names, GetAll(regs, names));
      assert r in names <==> r in names[..n] || r == names[n] by {
        assert names == names[..n] + [names[n]];
      }
    }
  }

  /**
   Restoring a list of captured registers rebuilds the whole register file exactly when the
   register file restored into already agrees on every register left out of the list.
   */
  lemma RestoreIsWholeFileIff(base: RegFile, regs: RegFile, names: seq<RegName>)
    ensures SetAll(base, names, GetAll(regs, names)) == regs
            <==> forall r :: r !in names ==> base[r] == regs[r]
  {
    forall r ensures SetAll(base, names, GetAll(regs, names))[r] == if r in names then regs[r] else base[r] {
      RestoreLookup(base, regs, names, r);
    }
  }

  const LONG_MODE_NAMES: seq<RegName> :=
    [Cr3, Cr4, Efer, Cr0, Cs, Ds, Es, Fs, Gs, Ss, Tr, Ldtr, Rflags]

  function LongModeValues(pml4: u64): (v: seq<RegValue>)
    ensures |v| == |LONG_MODE_NAMES|
  {
    var cs := Segment(0, 0xFFFF_FFFF, 0x08, 0xA09B);
    var ds := Segment(0, 0xFFFF_FFFF, 0x10, 0xC093);
    var tr := Segment(0, 0xFFFF, 0x18, 0x008B);
    var ldtr := Segment(0, 0, 0, 0);
    [Reg64(pml4), Reg64(0x620), Reg64(0x500), Reg64(0x8000_0031),
     cs, ds, ds, ds, ds, ds, tr, ldtr, Reg64(0x2)]
  }

  function LongMode(regs: RegFile, pml4: u64): RegFile {
    SetAll(regs, LONG_MODE_NAMES, LongModeValues(pml4))
  }

  lemma LongModeFrame(regs: RegFile, pml4: u64, r: RegName)
    requires r !in LONG_MODE_NAMES
    ensures LongMode(regs, pml4)[r] == regs[r]
  {
    hide SetAll, LongModeValues;
    SetAllFrame(regs, LONG_MODE_NAMES, LongModeValues(pml4), r);
  }

  lemma LongModeAt(regs: RegFile, pml4: u64, i: nat)
    requires i < |LONG_MODE_NAMES|
    ensures LongMode(regs, pml4)[LONG_MODE_NAMES[i]] == LongModeValues(pml4)[i]
  {
    hide SetAll, LongModeValues;
    SetAllLookup(regs, LONG_MODE_NAMES, LongModeValues(pml4), i);
  }

  lemma LongModeLiterals(pml4: u64)
    ensures var v, data := LongModeValues(pml4), RegValue(0, 0xC093_0010_FFFF_FFFF);
            && v[0] == RegValue(pml4, 0) && v[1] == RegValue(0x620, 0) && v[2] == RegValue(0x500, 0)
            && v[3] == RegValue(0x8000_0031, 0) && v[4] == RegValue(0, 0xA09B_0008_FFFF_FFFF)
            && v[5] == v[6] == v[7] == v[8] == v[9] == data
            && v[10] == RegValue(0, 0x008B_0018_0000_FFFF) && v[11] == RegValue(0, 0) && v[12] == RegValue(2, 0)
  {
  }

  lemma LongModeControl(regs: RegFile, pml4: u64)
    ensures var after := LongMode(regs, pml4);
            && after[Cr3] == RegValue(pml4, 0) && after[Cr4] == RegValue(0x620, 0) && after[Efer] == RegValue(0x500, 0)
            && after[Cr0] == RegValue(0x8000_0031, 0) && after[Rflags] == RegValue(2, 0)
  {
    hide LongMode, LongModeValues;
    LongModeLiterals(pml4);
    LongModeAt(regs, pml4, 0);
    LongModeAt(regs, pml4, 1);
    LongModeAt(regs, pml4, 2);
    LongModeAt(regs, pml4, 3);
    LongModeAt(regs, pml4, 12);
  }

  lemma LongModeSegments(regs: RegFile, pml4: u64)
    ensures var after, data := LongMode(regs, pml4), RegValue(0, 0xC093_0010_FFFF_FFFF);
            && after[Cs] == RegValue(0, 0xA09B_0008_FFFF_FFFF)
            && after[Ds] == after[Es] == after[Fs] == after[Gs] == after[Ss] == data
            && after[Tr] == RegValue(0, 0x008B_0018_0000_FFFF) && after[Ldtr] == RegValue(0, 0)
  {
    hide LongMode, LongModeValues;
    LongModeLiterals(pml4);
    LongModeAt(regs, pml4, 4);
    LongModeAt(regs, pml4, 5);
    LongModeAt(regs, pml4, 6);
    LongModeAt(regs, pml4, 7);
    LongModeAt(regs, pml4, 8);
    LongModeAt(regs, pml4, 9);
    LongModeAt(regs, pml4, 10);
    LongModeAt(regs, pml4, 11);
  }

  lemma LongModeNames(r: RegName)
    ensures r in LONG_MODE_NAMES ==> r in {Cr3, Cr4, Efer, Cr0, Cs, Ds, Es, Fs, Gs, Ss, Tr, Ldtr, Rflags}
  {
  }

  /** Entering long mode, register by register: control registers, segments and flags. */
  lemma LongModeTable(regs: RegFile, pml4: u64, r: RegName)
    ensures LongMode(regs, pml4)[r] ==
            match r
            case Cr3 => RegValue(pml4, 0)
            case Cr4 => RegValue(0x620, 0)
            case Efer => RegValue(0x500, 0)
            case Cr0 => RegValue(0x8000_0031, 0)
            case Cs => RegValue(0, 0xA09B_0008_FFFF_FFFF)
            case Ds | Es | Fs | Gs | Ss => RegValue(0, 0xC093_0010_FFFF_FFFF)
            case Tr => RegValue(0, 0x008B_0018_0000_FFFF)
            case Ldtr => RegValue(0, 0)
            case Rflags => RegValue(2, 0)
            case _ => regs[r]
  {
    hide LongMode;
    LongModeControl(regs, pml4);
    LongModeSegments(regs, pml4);
    if r !in {Cr3, Cr4, Efer, Cr0, Cs, Ds, Es, Fs, Gs, Ss, Tr, Ldtr, Rflags} {
      LongModeNames(r);
      LongModeFrame(regs, pml4, r);
    }
  }

  /** Guest physical memory: its domain is the set of mapped addresses. */
  type Memory = map<nat, byte>

  datatype Machine = Machine(regs: RegFile, mem: Memory)

  datatype ExitContext = ExitContext(reason: int, bitfield: byte)

  /** What one trip into the guest does: an exit, a new register file and byte stores. */
  datatype StepResult =
    | Exit(ctx: ExitContext, regs: RegFile, stores: Memory)
    | HostFailure(code: int)

  /** Any deterministic guest program together with the processor that executes it. */
  type Guest = (RegFile, Memory) -> StepResult

  /** Stores land on mapped addresses only; the set of mapped addresses never changes. */
  function Apply(mem: Memory, stores: Memory): (r: Memory)
    ensures r.Keys == mem.Keys
  {
    map a | a in mem :: if a in stores then stores[a] else mem[a]
  }

  datatype RunResult = Ran(ctx: ExitContext, machine: Machine) | RunFailed(code: int)

  function Run(guest: Guest, m: Machine): (r: RunResult)
    ensures r.Ran? ==> r.machine.mem.Keys == m.mem.Keys
  {
    match guest(m.regs, m.mem)
    case Exit(ctx, regs, stores) => Ran(ctx, Machine(regs, Apply(m.mem, stores)))
    case HostFailure(code) => RunFailed(code)
  }

  const EXIT_MEMORY_ACCESS: int := 1
  const EXIT_VMCALL: int := 4
  const EXIT_HALT: int := 8
  const EXIT_CPUID: int := 4097
  const EXIT_RDTSC: int := 4099

  datatype Fault = HostError(code: int) | ArithmeticOverflow

  /** A guest on a host binary built with the given profile. */
  datatype Platform = Platform(guest: Guest, build: Build)

  /** Both engines' `advance_rip`: read RIP, add, write it back. */
  function AdvanceRip(build: Build, m: Machine, length: byte): Option<Machine> {
    match AddU64(build, GetAll(m.regs, [Rip])[0].low, length)
    case None => None
    case Some(rip) =>
      Some(m.(regs := SetAll(m.regs, [Rip], [RegValue(rip, GetAll(m.regs, [Rip])[0].high)])))
  }

  lemma SetOne(regs: RegFile, r: RegName, v: RegValue)
    ensures SetAll(regs, [r], [v]) == regs[r := v]
  {
    assert [r][..0] == [] && [v][..0] == [];
    SetNone(regs);
  }

  /** Only RIP moves, by the given length modulo 2^64, and only an overflowing debug build panics. */
  lemma AdvanceRipExact(build: Build, m: Machine, length: byte)
    ensures AdvanceRip(build, m, length).None? <==> build.Debug? && m.regs[Rip].low + length >= TWO_64
    ensures AdvanceRip(build, m, length).Some? ==>
      AdvanceRip(build, m, length).value ==
      Machine(m.regs[Rip := RegValue(Low64(m.regs[Rip].low + length), m.regs[Rip].high)], m.mem)
  {
    hide SetAll;
    var rip := m.regs[Rip];
    assert GetAll(m.regs, [Rip])[0] == rip;
    match AddU64(build, rip.low, length)
    case None =>
    case Some(next) =>
      assert next == Low64(rip.low + length);
      SetOne(m.regs, Rip, RegValue(next, rip.high));
  }

  /** The decoded instruction length carried in the low four bits of the exit context. */
  function InstructionLength(ctx: ExitContext): (length: byte)
    ensures length < 16 && (ctx.bitfield - length) % 16 == 0
  {
    ctx.bitfield % 16
  }

  /** Guest memory after a run: every mapped address that was stored to holds what was stored last. */
  ghost predicate Lands(before: Memory, stores: Memory, after: Memory) {
    && after.Keys == before.Keys
    && forall a :: a in before ==> after[a] == if a in stores then stores[a] else before[a]
  }

  /**
   The guest resumes from `exit` with RIP moved on by `length` modulo 2^64, the given registers set to
   zero-extended values, and nothing else changed.
   */
  ghost predicate Resumes(exit: Machine, resumed: Machine, length: int, given: map<RegName, u64>) {
    && resumed.mem == exit.mem
    && resumed.regs[Rip].high == exit.regs[Rip].high
    && (resumed.regs[Rip].low == exit.regs[Rip].low + length
        || resumed.regs[Rip].low == exit.regs[Rip].low + length - 0x1_0000_0000_0000_0000)
    && (forall r :: r in given ==> resumed.regs[r] == RegValue(given[r], 0))
    && (forall r :: r != Rip && r !in given ==> resumed.regs[r] == exit.regs[r])
  }
}
