/** The virtual processor and the partition: mutable registers, and host buffers seen by the guest. */
module Vmm {
  import opened Words
  import opened GuestMachine
  import opened GuestMemory

  class Vcpu {
    var regs: RegFile

    constructor (reset: RegFile)
      ensures regs == reset
    {
      regs := reset;
    }

    method GetRegisters(names: seq<RegName>, values: array<RegValue>)
      requires |names| == values.Length
      modifies values
      ensures values[..] == GetAll(regs, names)
    {
      forall i | 0 <= i < |names| {
        values[i] := regs[names[i]];
      }
    }

    method SetRegisters(names: seq<RegName>, values: seq<RegValue>)
      requires |names| == |values|
      modifies this
      ensures regs == SetAll(old(regs), names, values)
      ensures forall r :: r !in names ==> regs[r] == old(regs)[r]
    {
      forall r | r !in names ensures SetAll(regs, names, values)[r] == regs[r] {
        SetAllFrame(regs, names, values, r);
      }
      regs := SetAll(regs, names, values);
    }

    method SetupLongMode(pml4: u64)
      modifies this
      ensures regs == LongMode(old(regs), pml4)
    {
      SetRegisters(LONG_MODE_NAMES, LongModeValues(pml4));
    }
  }

  /** A guest address range backed by a host buffer. */
  datatype Mapping = Mapping(gpa: nat, buf: array<byte>)

  function BuffersOf(ms: seq<Mapping>): set<array<byte>> {
    set m | m in ms :: m.buf
  }

  /** No host buffer is mapped twice. */
  ghost predicate Distinct(ms: seq<Mapping>) {
    forall i, j :: 0 <= i < j < |ms| ==> ms[i].buf != ms[j].buf
  }

  /** The current contents behind each mapping. */
  function RegionsOf(ms: seq<Mapping>): (rs: seq<Region>)
    reads BuffersOf(ms)
    ensures |rs| == |ms|
    ensures forall k :: 0 <= k < |ms| ==> rs[k] == Region(ms[k].gpa, ms[k].buf[..])
  {
    if ms == [] then []
    else
      var n := |ms| - 1;
      assert BuffersOf(ms[..n]) <= BuffersOf(ms);
      assert ms[n] in ms;
      RegionsOf(ms[..n]) + [Region(ms[n].gpa, ms[n].buf[..])]
  }

  datatype HostResult = Exited(ctx: ExitContext) | HostFailed(code: int)

  lemma ApplyOne(mem: Memory, stores: Memory, todo: set<nat>, a: nat)
    requires a in todo && todo <= stores.Keys
    ensures Apply(mem, stores - (todo - {a})) ==
            if a in Apply(mem, stores - todo) then Apply(mem, stores - todo)[a := stores[a]]
            else Apply(mem, stores - todo)
  {
  }

  lemma ApplySome(mem: Memory, stores: Memory)
    ensures Apply(mem, stores - stores.Keys) == mem && stores - {} == stores
  {
  }

  class Partition {
    var mappings: seq<Mapping>

    constructor ()
      ensures mappings == []
    {
      mappings := [];
    }

    ghost predicate Valid()
      reads this
    {
      Distinct(mappings)
    }

    function Buffers(): set<array<byte>>
      reads this
    {
      BuffersOf(mappings)
    }

    /** Guest physical memory: the buffers, read through the mappings. */
    function Mem(): Memory
      reads this, Buffers()
    {
      View(RegionsOf(mappings))
    }

    method MapGpaRange(gpa: nat, buf: array<byte>)
      modifies this
      ensures mappings == old(mappings) + [Mapping(gpa, buf)]
      ensures old(Valid()) && buf !in old(Buffers()) ==> Valid()
    {
      mappings := mappings + [Mapping(gpa, buf)];
    }

    /** The index of the mapping that an address resolves to, or -1. */
    method Resolve(a: nat) returns (k: int)
      ensures k == Owner(RegionsOf(mappings), a)
    {
      hide Owner, RegionsOf;
      ghost var rs := RegionsOf(mappings);
      k := |mappings| - 1;
      while k >= 0 && !(mappings[k].gpa <= a < mappings[k].gpa + mappings[k].buf.Length)
        invariant -1 <= k < |mappings|
        invariant forall j :: k < j < |mappings| ==> !Covers(rs[j], a)
      {
        k := k - 1;
      }
      assert k >= 0 ==> Covers(rs[k], a);
    }

    /**
     One byte stored by the guest. It lands at offset `a - base` of the buffer that owns the
     address, in no other byte of that buffer, and in no other buffer.
     */
    method Store(a: nat, b: byte)
      requires Valid()
      modifies Buffers()
      ensures RegionsOf(mappings) == StoreAt(old(RegionsOf(mappings)), a, b)
      ensures Mem() == if a in old(Mem()) then old(Mem())[a := b] else old(Mem())
    {
      hide View, Owner, RegionsOf;
      ghost var before := RegionsOf(mappings);
      var k := Resolve(a);
      if k >= 0 {
        var m := mappings[k];
        assert m in mappings;
        m.buf[a - m.gpa] := b;
        assert m.buf[..] == before[k].bytes[a - m.gpa := b];
      }
      assert RegionsOf(mappings) == StoreAt(before, a, b);
      ViewAfterStore(before, a, b);
    }

    /** Carry out all the stores of one run, in no particular order. */
    method WriteBack(stores: Memory)
      requires Valid()
      modifies Buffers()
      ensures Mem() == Apply(old(Mem()), stores)
      ensures Evolves(old(RegionsOf(mappings)), RegionsOf(mappings))
    {
      hide View, RegionsOf, StoreAt, Apply, Evolves;
      ghost var mem, before := Mem(), RegionsOf(mappings);
      EvolvesFromItself(before);
      var todo := stores.Keys;
      ApplySome(mem, stores);
      while todo != {}
        invariant todo <= stores.Keys
        invariant Mem() == Apply(mem, stores - todo)
        invariant Evolves(before, RegionsOf(mappings))
        decreases |todo|
      {
        var a :| a in todo;
        StoreEvolves(RegionsOf(mappings), a, stores[a]);
        EvolvesThrough(before, RegionsOf(mappings), StoreAt(RegionsOf(mappings), a, stores[a]));
        Store(a, stores[a]);
        ApplyOne(mem, stores, todo, a);
        todo := todo - {a};
      }
    }

    /** Run the virtual processor up to its next exit. */
    method Run(guest: Guest, vcpu: Vcpu) returns (r: HostResult)
      requires Valid()
      modifies vcpu, Buffers()
      ensures match GuestMachine.Run(guest, Machine(old(vcpu.regs), old(Mem())))
              case Ran(ctx, m) => r == Exited(ctx) && vcpu.regs == m.regs && Mem() == m.mem
              case RunFailed(code) => r == HostFailed(code) && vcpu.regs == old(vcpu.regs) && Mem() == old(Mem())
      ensures Evolves(old(RegionsOf(mappings)), RegionsOf(mappings))
    {
      hide View, RegionsOf, StoreAt, Owner;
      ghost var before := RegionsOf(mappings);
      var mem := Mem();
      match guest(vcpu.regs, mem)
      case HostFailure(code) =>
        r := HostFailed(code);
      case Exit(ctx, regs, stores) =>
        WriteBack(stores);
        ghost var after := RegionsOf(mappings);
        vcpu.regs := regs;
        assert RegionsOf(mappings) == after;
        r := Exited(ctx);
    }
  }
}
