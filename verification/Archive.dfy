/** The trace archive: the tuple (snapshot, events, hash) in the binary layout of `Codec`. */
module Archive {
  import opened Words
  import opened Trace
  import opened GuestMachine
  import opened GuestMemory
  import opened Codec

  /** A 16-byte register is the raw image of the union: the low half, then the high half. */
  const Register: Codec<RegValue> :=
    Via(Pair(U64, U64), (p: (u64, u64)) => RegValue(p.0, p.1), (r: RegValue) => (r.low, r.high))

  const Write: Codec<MemoryWrite> :=
    Via(Pair(U64, Vec(U8)), (p: (u64, seq<byte>)) => MemoryWrite(p.0, p.1), (w: MemoryWrite) => (w.gpa, w.data))

  function SyscallFormat(): Codec<(u64, seq<MemoryWrite>)> {
    Pair(U64, Vec(Write))
  }

  function RdtscFormat(): Codec<(u64, u64)> {
    Pair(U64, U64)
  }

  function CpuidFormat(): Codec<((u32, u32), (u32, u32))> {
    Pair(Pair(U32, U32), Pair(U32, U32))
  }

  function SwitchFormat(): Codec<u32> {
    U32
  }

  function Tag(e: EventType): u32 {
    match e
    case Syscall(_, _) => 0
    case Rdtsc(_, _) => 1
    case Cpuid(_, _, _, _) => 2
    case ContextSwitch(_) => 3
  }

  function EventPayload(e: EventType): seq<byte> {
    match e
    case Syscall(rax, writes) => SyscallFormat().enc((rax, writes))
    case Rdtsc(rax, rdx) => RdtscFormat().enc((rax, rdx))
    case Cpuid(a, b, c, d) => CpuidFormat().enc(((a, b), (c, d)))
    case ContextSwitch(id) => SwitchFormat().enc(id)
  }

  function ReadPayload(tag: u32, s: seq<byte>): Decoded<EventType> {
    if tag == 0 then
      match SyscallFormat().dec(s)
      case Bad => Bad
      case Good(p, rest) => Good(Syscall(p.0, p.1), rest)
    else if tag == 1 then
      match RdtscFormat().dec(s)
      case Bad => Bad
      case Good(p, rest) => Good(Rdtsc(p.0, p.1), rest)
    else if tag == 2 then
      match CpuidFormat().dec(s)
      case Bad => Bad
      case Good(p, rest) => Good(Cpuid(p.0.0, p.0.1, p.1.0, p.1.1), rest)
    else if tag == 3 then
      match SwitchFormat().dec(s)
      case Bad => Bad
      case Good(id, rest) => Good(ContextSwitch(id), rest)
    else Bad
  }

  /** The payload's lengths fit their prefixes; only system calls carry any. */
  predicate ValidEvent(e: EventType) {
    match e
    case Syscall(rax, writes) => SyscallFormat().valid((rax, writes))
    case Rdtsc(rax, rdx) => RdtscFormat().valid((rax, rdx))
    case Cpuid(a, b, c, d) => CpuidFormat().valid(((a, b), (c, d)))
    case ContextSwitch(id) => SwitchFormat().valid(id)
  }

  lemma OnlySyscallsHaveLengths(e: EventType)
    ensures !e.Syscall? ==> ValidEvent(e)
  {
  }

  const Event: Codec<EventType> := Codec(
    (e: EventType) => Le(Tag(e), 4) + EventPayload(e),
    (s: seq<byte>) =>
      match ReadU32(s)
      case Bad => Bad
      case Good(tag, rest) => ReadPayload(tag, rest),
    ValidEvent)

  const Entry: Codec<TraceEvent> :=
    Via(Pair(U64, Event), (p: (u64, EventType)) => TraceEvent(p.0, p.1),
      (t: TraceEvent) => (t.instructionCount, t.event))

  lemma RegisterLawful()
    ensures Lawful(Register)
  {
    U64Lawful();
    PairLawful(U64, U64);
    ViaLawful(Pair(U64, U64), (p: (u64, u64)) => RegValue(p.0, p.1), (r: RegValue) => (r.low, r.high));
  }

  lemma WriteLawful()
    ensures Lawful(Write)
  {
    U64Lawful();
    U8Lawful();
    VecLawful(U8);
    PairLawful(U64, Vec(U8));
    ViaLawful(Pair(U64, Vec(U8)), (p: (u64, seq<byte>)) => MemoryWrite(p.0, p.1), (w: MemoryWrite) => (w.gpa, w.data));
  }

  lemma PayloadsLawful()
    ensures Lawful(SyscallFormat()) && Lawful(RdtscFormat()) && Lawful(CpuidFormat()) && Lawful(SwitchFormat())
  {
    U64Lawful();
    U32Lawful();
    WriteLawful();
    VecLawful(Write);
    PairLawful(U64, Vec(Write));
    PairLawful(U64, U64);
    PairLawful(U32, U32);
    PairLawful(Pair(U32, U32), Pair(U32, U32));
  }

  lemma PayloadRoundTrip(e: EventType, rest: seq<byte>)
    requires ValidEvent(e)
    ensures ReadPayload(Tag(e), EventPayload(e) + rest) == Good(e, rest)
  {
    hide SyscallFormat, RdtscFormat, CpuidFormat, SwitchFormat, Lawful;
    PayloadsLawful();
    match e
    case Syscall(rax, writes) => UseRoundTrip(SyscallFormat(), (rax, writes), rest);
    case Rdtsc(rax, rdx) => UseRoundTrip(RdtscFormat(), (rax, rdx), rest);
    case Cpuid(a, b, c, d) => UseRoundTrip(CpuidFormat(), ((a, b), (c, d)), rest);
    case ContextSwitch(id) => UseRoundTrip(SwitchFormat(), id, rest);
  }

  lemma PayloadExact(tag: u32, s: seq<byte>)
    requires ReadPayload(tag, s).Good?
    ensures var d := ReadPayload(tag, s);
            Tag(d.value) == tag && ValidEvent(d.value) && EventPayload(d.value) + d.rest == s
  {
    hide SyscallFormat, RdtscFormat, CpuidFormat, SwitchFormat, Lawful;
    PayloadsLawful();
    if tag == 0 {
      UseExact(SyscallFormat(), s);
    } else if tag == 1 {
      UseExact(RdtscFormat(), s);
    } else if tag == 2 {
      UseExact(CpuidFormat(), s);
    } else {
      UseExact(SwitchFormat(), s);
    }
  }

  lemma EventRoundTrip(e: EventType, rest: seq<byte>)
    requires Event.valid(e)
    ensures Event.dec(Event.enc(e) + rest) == Good(e, rest)
  {
    hide Le, ReadPayload, EventPayload, ReadU32, Lawful, ValidEvent, Tag;
    U32Lawful();
    assert Event.enc(e) + rest == U32.enc(Tag(e)) + (EventPayload(e) + rest);
    UseRoundTrip(U32, Tag(e), EventPayload(e) + rest);
    PayloadRoundTrip(e, rest);
  }

  lemma EventExact(s: seq<byte>)
    requires Event.dec(s).Good?
    ensures Event.valid(Event.dec(s).value) && Event.enc(Event.dec(s).value) + Event.dec(s).rest == s
  {
    hide Le, ReadPayload, EventPayload, ReadU32, Lawful, ValidEvent, Tag;
    U32Lawful();
    var head, d := U32.dec(s), Event.dec(s);
    assert ReadU32(s) == head;
    UseExact(U32, s);
    PayloadExact(head.value, head.rest);
    assert Event.enc(d.value) + d.rest == Le(head.value, 4) + (EventPayload(d.value) + d.rest);
  }

  lemma EventLawful()
    ensures Lawful(Event)
  {
    hide Le, ReadPayload, EventPayload, ReadU32, ValidEvent, Tag;
    forall e: EventType, rest | Event.valid(e) ensures Event.dec(Event.enc(e) + rest) == Good(e, rest) {
      EventRoundTrip(e, rest);
    }
    forall s | Event.dec(s).Good?
      ensures Event.valid(Event.dec(s).value) && Event.enc(Event.dec(s).value) + Event.dec(s).rest == s
    {
      EventExact(s);
    }
  }

  lemma EntryLawful()
    ensures Lawful(Entry)
  {
    U64Lawful();
    EventLawful();
    PairLawful(U64, Event);
    ViaLawful(Pair(U64, Event), (p: (u64, EventType)) => TraceEvent(p.0, p.1),
      (t: TraceEvent) => (t.instructionCount, t.event));
  }

  // ---------------------------------------------------------------------------------------------
  // The bytes of an entry.

  function WriteParts(writes: seq<MemoryWrite>): (parts: seq<seq<byte>>)
    ensures |parts| == |writes|
  {
    seq(|writes|, i requires 0 <= i < |writes| =>
      Le(writes[i].gpa, 8) + Le(|writes[i].data|, 8) + writes[i].data)
  }

  lemma {:induction false} EncAllIsFlat<T>(c: Codec<T>, xs: seq<T>, parts: seq<seq<byte>>)
    requires |parts| == |xs| && forall i :: 0 <= i < |xs| ==> parts[i] == c.enc(xs[i])
    ensures EncAll(c, xs) == Flatten(parts)
  {
    if xs != [] { EncAllIsFlat(c, xs[1..], parts[1..]); }
  }

  lemma WriteBytes(w: MemoryWrite)
    ensures Write.enc(w) == Le(w.gpa, 8) + Le(|w.data|, 8) + w.data
  {
    hide Le, EncAll;
    RawBytesAreElements(w.data);
    assert Write.enc(w) == Le(w.gpa, 8) + (Le(|w.data|, 8) + w.data);
  }

  lemma WriteLayout(writes: seq<MemoryWrite>)
    ensures EncAll(Write, writes) == Flatten(WriteParts(writes))
  {
    hide Le, EncAll;
    forall i | 0 <= i < |writes| ensures WriteParts(writes)[i] == Write.enc(writes[i]) {
      WriteBytes(writes[i]);
    }
    EncAllIsFlat(Write, writes, WriteParts(writes));
  }

  lemma SyscallBytes(rax: u64, writes: seq<MemoryWrite>)
    ensures EventPayload(Syscall(rax, writes)) == Le(rax, 8) + Le(|writes|, 8) + Flatten(WriteParts(writes))
  {
    hide Le, EncAll, WriteParts;
    WriteLayout(writes);
    assert EventPayload(Syscall(rax, writes)) == Le(rax, 8) + (Le(|writes|, 8) + EncAll(Write, writes));
  }

  lemma CpuidBytes(a: u32, b: u32, c: u32, d: u32)
    ensures EventPayload(Cpuid(a, b, c, d)) == Le(a, 4) + Le(b, 4) + Le(c, 4) + Le(d, 4)
  {
    hide Le;
    assert EventPayload(Cpuid(a, b, c, d)) == (Le(a, 4) + Le(b, 4)) + (Le(c, 4) + Le(d, 4));
  }

  lemma OtherBytes(rax: u64, rdx: u64, id: u32)
    ensures EventPayload(Rdtsc(rax, rdx)) == Le(rax, 8) + Le(rdx, 8)
    ensures EventPayload(ContextSwitch(id)) == Le(id, 4)
  {
    hide Le;
  }

  lemma SmallTag(tag: u32)
    requires tag < 256
    ensures Le(tag, 4) == [tag, 0, 0, 0]
  {
  }

  /**
   The bytes of an event: its variant's number in four bytes, then its fields in declaration order,
   little-endian, sequences with a 64-bit length in front.
   */
  lemma EventLayout(e: EventType)
    ensures match e
            case Syscall(rax, writes) =>
              Event.enc(e) == [0, 0, 0, 0] + (Le(rax, 8) + Le(|writes|, 8) + Flatten(WriteParts(writes)))
            case Rdtsc(rax, rdx) =>
              Event.enc(e) == [1, 0, 0, 0] + (Le(rax, 8) + Le(rdx, 8)) && |Event.enc(e)| == 20
            case Cpuid(eax, ebx, ecx, edx) =>
              Event.enc(e) == [2, 0, 0, 0] + (Le(eax, 4) + Le(ebx, 4) + Le(ecx, 4) + Le(edx, 4)) && |Event.enc(e)| == 20
            case ContextSwitch(id) =>
              Event.enc(e) == [3, 0, 0, 0] + Le(id, 4) && |Event.enc(e)| == 8
  {
    hide Le, EventPayload, WriteParts, Flatten;
    SmallTag(Tag(e));
    match e
    case Syscall(rax, writes) => SyscallBytes(rax, writes);
    case Rdtsc(rax, rdx) => OtherBytes(rax, rdx, 0);
    case Cpuid(eax, ebx, ecx, edx) => CpuidBytes(eax, ebx, ecx, edx);
    case ContextSwitch(id) => OtherBytes(0, 0, id);
  }

  // ---------------------------------------------------------------------------------------------
  // The whole archive.

  type RegionEntry = (u64, seq<byte>)

  datatype Archive = Archive(regions: RegionMap, registers: seq<RegValue>, events: seq<TraceEvent>, hash: u64)

  /** The wire form keeps the region map as the entry list it was iterated into. */
  type Wire = ((seq<RegionEntry>, seq<RegValue>), (seq<TraceEvent>, u64))

  function WireFormat(): Codec<Wire> {
    Pair(Pair(Vec(Pair(U64, Buffer)), Vec(Register)), Pair(Vec(Entry), U64))
  }

  lemma WireLawful()
    ensures Lawful(WireFormat())
  {
    U64Lawful();
    BufferLawful();
    RegisterLawful();
    EntryLawful();
    PairLawful(U64, Buffer);
    VecLawful(Pair(U64, Buffer));
    VecLawful(Register);
    VecLawful(Entry);
    PairLawful(Vec(Pair(U64, Buffer)), Vec(Register));
    PairLawful(Vec(Entry), U64);
    PairLawful(Pair(Vec(Pair(U64, Buffer)), Vec(Register)), Pair(Vec(Entry), U64));
  }

  function EntriesIn(order: seq<u64>, regions: RegionMap): (es: seq<RegionEntry>)
    requires forall g :: g in order ==> g in regions
    ensures |es| == |order|
    ensures forall i :: 0 <= i < |es| ==> es[i] == (order[i], regions[order[i]])
  {
    seq(|order|, i requires 0 <= i < |order| => (order[i], regions[order[i]]))
  }

  /** Deserializing a hash map inserts the entries one after the other. */
  function FromEntries(es: seq<RegionEntry>): RegionMap {
    if es == [] then map[] else FromEntries(es[..|es| - 1])[es[|es| - 1].0 := es[|es| - 1].1]
  }

  function Encode(order: seq<u64>, a: Archive): seq<byte>
    requires forall g :: g in order ==> g in a.regions
  {
    WireFormat().enc(((EntriesIn(order, a.regions), a.registers), (a.events, a.hash)))
  }

  function Decode(s: seq<byte>): Decoded<Archive> {
    match WireFormat().dec(s)
    case Bad => Bad
    case Good(w, rest) => Good(Archive(FromEntries(w.0.0), w.0.1, w.1.0, w.1.1), rest)
  }

  function RegionParts(order: seq<u64>, regions: RegionMap): (parts: seq<seq<byte>>)
    requires forall g :: g in order ==> g in regions
    ensures |parts| == |order|
  {
    seq(|order|, i requires 0 <= i < |order| =>
      Le(order[i], 8) + Le(|regions[order[i]]|, 8) + regions[order[i]])
  }

  function RegisterParts(registers: seq<RegValue>): (parts: seq<seq<byte>>)
    ensures |parts| == |registers|
  {
    seq(|registers|, i requires 0 <= i < |registers| => Le(registers[i].low, 8) + Le(registers[i].high, 8))
  }

  function EventParts(events: seq<TraceEvent>): (parts: seq<seq<byte>>)
    ensures |parts| == |events|
  {
    seq(|events|, i requires 0 <= i < |events| => Le(events[i].instructionCount, 8) + Event.enc(events[i].event))
  }

  lemma RegionBytes(e: RegionEntry)
    ensures Pair(U64, Buffer).enc(e) == Le(e.0, 8) + Le(|e.1|, 8) + e.1
  {
    hide Le;
    assert Le(e.0, 8) + (Le(|e.1|, 8) + e.1) == Le(e.0, 8) + Le(|e.1|, 8) + e.1;
  }

  lemma RegionsAreFlat(order: seq<u64>, regions: RegionMap)
    requires forall g :: g in order ==> g in regions
    ensures EncAll(Pair(U64, Buffer), EntriesIn(order, regions)) == Flatten(RegionParts(order, regions))
  {
    hide Le, EncAll, Flatten, Pair, Buffer;
    var es := EntriesIn(order, regions);
    forall i | 0 <= i < |es| ensures RegionParts(order, regions)[i] == Pair(U64, Buffer).enc(es[i]) {
      RegionBytes(es[i]);
    }
    EncAllIsFlat(Pair(U64, Buffer), es, RegionParts(order, regions));
  }

  lemma RegistersAreFlat(registers: seq<RegValue>)
    ensures EncAll(Register, registers) == Flatten(RegisterParts(registers))
  {
    hide Le, EncAll, Flatten;
    EncAllIsFlat(Register, registers, RegisterParts(registers));
  }

  lemma EventsAreFlat(events: seq<TraceEvent>)
    ensures EncAll(Entry, events) == Flatten(EventParts(events))
  {
    hide Le, EncAll, Flatten, EventPayload, Tag;
    EncAllIsFlat(Entry, events, EventParts(events));
  }

  /** The file: regions in iteration order, registers, events, each counted in front, and the hash. */
  lemma ArchiveLayout(order: seq<u64>, a: Archive)
    requires forall g :: g in order ==> g in a.regions
    ensures Encode(order, a) ==
            Le(|order|, 8) + Flatten(RegionParts(order, a.regions))
            + (Le(|a.registers|, 8) + Flatten(RegisterParts(a.registers)))
            + (Le(|a.events|, 8) + Flatten(EventParts(a.events)) + Le(a.hash, 8))
  {
    hide Le, EncAll, Flatten, RegionParts, RegisterParts, EventParts;
    RegionsAreFlat(order, a.regions);
    RegistersAreFlat(a.registers);
    EventsAreFlat(a.events);
  }

  /** Where each field is in the file. */
  lemma ArchiveOffsets(order: seq<u64>, a: Archive)
    requires forall g :: g in order ==> g in a.regions
    ensures var f := Encode(order, a);
            var regions, events := Flatten(RegionParts(order, a.regions)), Flatten(EventParts(a.events));
            var r := 8 + |regions|;
            var v := r + 8 + 16 * |a.registers|;
            && |f| == v + 8 + |events| + 8
            && f[..8] == Le(|order|, 8) && f[8..r] == regions
            && f[r..r + 8] == Le(|a.registers|, 8) && f[r + 8..v] == Flatten(RegisterParts(a.registers))
            && f[v..v + 8] == Le(|a.events|, 8) && f[v + 8..v + 8 + |events|] == events
            && f[v + 8 + |events|..] == Le(a.hash, 8)
  {
    hide Le, Flatten, RegionParts, EventParts, Encode;
    ArchiveLayout(order, a);
    FlatLength(RegisterParts(a.registers), 16);
  }

  lemma RegisterAt(registers: seq<RegValue>, i: nat)
    requires i < |registers|
    ensures var s := Flatten(RegisterParts(registers));
            && 16 * i + 16 <= |s|
            && s[16 * i..16 * i + 8] == Le(registers[i].low, 8) && s[16 * i + 8..16 * i + 16] == Le(registers[i].high, 8)
  {
    hide Le, Flatten;
    var parts := RegisterParts(registers);
    var s, before := Flatten(parts), Flatten(parts[..i]);
    PartAt(parts, i);
    FlatLength(parts[..i], 16);
    Middle(before, parts[i], Flatten(parts[i + 1..]));
    assert s[16 * i..16 * i + 8] == parts[i][..8] && s[16 * i + 8..16 * i + 16] == parts[i][8..];
  }

  /** Within the three sequences: each region, register and event, field by field. */
  lemma ElementOffsets(order: seq<u64>, a: Archive, i: nat)
    requires forall g :: g in order ==> g in a.regions
    ensures i < |order| ==>
      var regions, k := Flatten(RegionParts(order, a.regions)), |Flatten(RegionParts(order[..i], a.regions))|;
      var bytes := a.regions[order[i]];
      k + 16 + |bytes| <= |regions| && regions[k..k + 16 + |bytes|] == Le(order[i], 8) + Le(|bytes|, 8) + bytes
    ensures i < |a.registers| ==>
      var registers := Flatten(RegisterParts(a.registers));
      && 16 * i + 16 <= |registers|
      && registers[16 * i..16 * i + 8] == Le(a.registers[i].low, 8)
      && registers[16 * i + 8..16 * i + 16] == Le(a.registers[i].high, 8)
    ensures i < |a.events| ==>
      var events, k := Flatten(EventParts(a.events)), |Flatten(EventParts(a.events[..i]))|;
      var bytes := Event.enc(a.events[i].event);
      k + 8 + |bytes| <= |events| && events[k..k + 8 + |bytes|] == Le(a.events[i].instructionCount, 8) + bytes
  {
    hide Le, Flatten;
    if i < |order| {
      var parts := RegionParts(order, a.regions);
      PartAt(parts, i);
      assert parts[..i] == RegionParts(order[..i], a.regions);
      Middle(Flatten(parts[..i]), parts[i], Flatten(parts[i + 1..]));
    }
    if i < |a.registers| {
      RegisterAt(a.registers, i);
    }
    if i < |a.events| {
      var parts := EventParts(a.events);
      PartAt(parts, i);
      assert parts[..i] == EventParts(a.events[..i]);
      Middle(Flatten(parts[..i]), parts[i], Flatten(parts[i + 1..]));
    }
  }

  /** Every length in the archive fits in 64 bits. */
  ghost predicate Encodable(a: Archive) {
    && |a.regions| < TWO_64
    && (forall g :: g in a.regions ==> |a.regions[g]| < TWO_64)
    && |a.registers| < TWO_64
    && |a.events| < TWO_64
    && (forall i :: 0 <= i < |a.events| ==> ValidEvent(a.events[i].event))
  }

  lemma {:induction false} InsertionRebuildsMap(order: seq<u64>, regions: RegionMap)
    requires forall g :: g in order ==> g in regions
    ensures forall g :: g in FromEntries(EntriesIn(order, regions)) <==> g in order
    ensures forall g :: g in order ==> FromEntries(EntriesIn(order, regions))[g] == regions[g]
    decreases |order|
  {
    if order != [] {
      var n := |order| - 1;
      InsertionRebuildsMap(order[..n], regions);
      assert EntriesIn(order, regions)[..n] == EntriesIn(order[..n], regions);
      assert order == order[..n] + [order[n]];
    }
  }

  /** An address that a file names twice keeps the bytes named last. */
  lemma {:induction false} LastEntryWins(es: seq<RegionEntry>, g: u64)
    ensures g in FromEntries(es) <==> exists i :: 0 <= i < |es| && es[i].0 == g
    ensures forall i :: 0 <= i < |es| && es[i].0 == g && (forall j :: i < j < |es| ==> es[j].0 != g) ==>
      FromEntries(es)[g] == es[i].1
    decreases |es|
  {
    if es != [] {
      var n := |es| - 1;
      LastEntryWins(es[..n], g);
      if i :| 0 <= i < |es| && es[i].0 == g && i < n {
        assert es[..n][i].0 == g;
      }
    }
  }

  lemma {:induction false} OrderLength(order: seq<u64>, keys: set<u64>)
    requires IsOrder(order, keys)
    ensures |order| == |keys|
    decreases |order|
  {
    if order == [] {
      assert keys == {};
    } else {
      var n := |order| - 1;
      assert order == order[..n] + [order[n]];
      assert order[n] in keys;
      OrderLength(order[..n], keys - {order[n]});
    }
  }

  lemma EncodableIsValid(order: seq<u64>, a: Archive)
    requires IsOrder(order, a.regions.Keys) && Encodable(a)
    ensures WireFormat().valid(((EntriesIn(order, a.regions), a.registers), (a.events, a.hash)))
  {
    hide ValidEvent;
    OrderLength(order, a.regions.Keys);
    assert |a.regions| == |a.regions.Keys|;
    var es := EntriesIn(order, a.regions);
    assert AllValid(Pair(U64, Buffer), es);
    assert AllValid(Register, a.registers);
    assert AllValid(Entry, a.events);
    hide AllValid;
  }

  /** The archive survives encoding in any iteration order, whatever bytes follow it. */
  lemma RoundTrip(order: seq<u64>, a: Archive, rest: seq<byte>)
    requires IsOrder(order, a.regions.Keys) && Encodable(a)
    ensures Decode(Encode(order, a) + rest) == Good(a, rest)
  {
    hide WireFormat;
    var w := ((EntriesIn(order, a.regions), a.registers), (a.events, a.hash));
    EncodableIsValid(order, a);
    WireLawful();
    assert WireFormat().dec(WireFormat().enc(w) + rest) == Good(w, rest);
    InsertionRebuildsMap(order, a.regions);
    assert FromEntries(w.0.0) == a.regions;
  }

  /** No region address is named twice. */
  ghost predicate NoRepeats(es: seq<RegionEntry>) {
    forall i, j :: 0 <= i < j < |es| ==> es[i].0 != es[j].0
  }

  /** The entry list that a file's bytes spell out. */
  function EntriesOf(s: seq<byte>): seq<RegionEntry>
    requires Decode(s).Good?
  {
    WireFormat().dec(s).value.0.0
  }

  lemma {:induction false} DistinctEntries(es: seq<RegionEntry>, order: seq<u64>)
    requires |order| == |es| && forall i :: 0 <= i < |es| ==> order[i] == es[i].0
    requires forall i, j :: 0 <= i < j < |es| ==> es[i].0 != es[j].0
    ensures forall g :: g in FromEntries(es) <==> g in order
    ensures forall i :: 0 <= i < |es| ==> FromEntries(es)[es[i].0] == es[i].1
    decreases |es|
  {
    if es != [] {
      var n := |es| - 1;
      DistinctEntries(es[..n], order[..n]);
      assert order == order[..n] + [order[n]];
      forall i | 0 <= i < n ensures es[i].0 in FromEntries(es[..n]) {
        assert order[..n][i] == es[i].0;
      }
    }
  }

  lemma EncodesInListedOrder(s: seq<byte>) returns (order: seq<u64>)
    requires Decode(s).Good? && NoRepeats(EntriesOf(s))
    ensures IsOrder(order, Decode(s).value.regions.Keys)
    ensures Encode(order, Decode(s).value) + Decode(s).rest == s
  {
    hide WireFormat;
    WireLawful();
    var w := WireFormat().dec(s).value;
    var es := w.0.0;
    order := seq(|es|, i requires 0 <= i < |es| => es[i].0);
    DistinctEntries(es, order);
    assert EntriesIn(order, FromEntries(es)) == es;
    UseExact(WireFormat(), s);
  }

  lemma {:induction false} EntriesInserted(es: seq<RegionEntry>, g: u64)
    requires g in FromEntries(es)
    ensures exists i :: 0 <= i < |es| && es[i] == (g, FromEntries(es)[g])
    decreases |es|
  {
    var n := |es| - 1;
    if es[n].0 == g {
      assert es[n] == (g, FromEntries(es)[g]);
    } else {
      EntriesInserted(es[..n], g);
      var i :| 0 <= i < n && es[..n][i] == (g, FromEntries(es[..n])[g]);
      assert es[i] == (g, FromEntries(es)[g]);
    }
  }

  lemma {:induction false} NoMoreKeysThanEntries(es: seq<RegionEntry>)
    ensures |FromEntries(es)| <= |es|
    decreases |es|
  {
    if es != [] {
      var n := |es| - 1;
      NoMoreKeysThanEntries(es[..n]);
      assert FromEntries(es).Keys == FromEntries(es[..n]).Keys + {es[n].0};
    }
  }

  lemma ValidWireParts(w: Wire)
    requires WireFormat().valid(w)
    ensures |w.0.0| < TWO_64 && |w.0.1| < TWO_64 && |w.1.0| < TWO_64
    ensures forall i :: 0 <= i < |w.0.0| ==> |w.0.0[i].1| < TWO_64
    ensures forall i :: 0 <= i < |w.1.0| ==> ValidEvent(w.1.0[i].event)
  {
    var entries := Pair(U64, Buffer);
    assert AllValid(entries, w.0.0) && AllValid(Entry, w.1.0);
    forall i | 0 <= i < |w.0.0| ensures |w.0.0[i].1| < TWO_64 {
      assert entries.valid(w.0.0[i]);
    }
    forall i | 0 <= i < |w.1.0| ensures ValidEvent(w.1.0[i].event) {
      assert Entry.valid(w.1.0[i]);
    }
  }

  /** What decodes can be encoded again. */
  lemma DecodedIsEncodable(s: seq<byte>)
    requires Decode(s).Good?
    ensures Encodable(Decode(s).value)
  {
    hide WireFormat, ValidEvent, Lawful;
    WireLawful();
    var w := WireFormat().dec(s).value;
    UseExact(WireFormat(), s);
    ValidWireParts(w);
    var regions := FromEntries(w.0.0);
    NoMoreKeysThanEntries(w.0.0);
    forall g | g in regions ensures |regions[g]| < TWO_64 {
      EntriesInserted(w.0.0, g);
    }
  }

  lemma EncodingHasNoRepeats(s: seq<byte>, order: seq<u64>)
    requires Decode(s).Good? && IsOrder(order, Decode(s).value.regions.Keys)
    requires Encode(order, Decode(s).value) + Decode(s).rest == s
    ensures NoRepeats(EntriesOf(s))
  {
    hide WireFormat;
    var a, rest := Decode(s).value, Decode(s).rest;
    DecodedIsEncodable(s);
    EncodableIsValid(order, a);
    WireLawful();
    var w := ((EntriesIn(order, a.regions), a.registers), (a.events, a.hash));
    UseRoundTrip(WireFormat(), w, rest);
  }

  /**
   Conversely, bytes that decode are the encoding of the archive they decode to, in some iteration
   order, if and only if they do not name a region address twice.
   */
  lemma DecodedIsEncodedIff(s: seq<byte>)
    requires Decode(s).Good?
    ensures NoRepeats(EntriesOf(s)) <==>
            exists order ::
              && IsOrder(order, Decode(s).value.regions.Keys)
              && Encode(order, Decode(s).value) + Decode(s).rest == s
  {
    hide WireFormat;
    if NoRepeats(EntriesOf(s)) {
      var order := EncodesInListedOrder(s);
    }
    forall order | IsOrder(order, Decode(s).value.regions.Keys) && Encode(order, Decode(s).value) + Decode(s).rest == s
      ensures NoRepeats(EntriesOf(s))
    {
      EncodingHasNoRepeats(s, order);
    }
  }
}
