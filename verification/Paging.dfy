/** The identity page tables, and the hardware walk of section 4.5 of the Intel SDM, Volume 3A. */
module Paging {
  import opened Words
  import opened GuestMachine

  const TABLE_SIZE: nat := 12288
  const SLOTS: nat := 1536
  const TWO_30: int := 0x4000_0000
  const TWO_39: int := 0x80_0000_0000
  const TWO_47: int := 0x8000_0000_0000
  const TWO_52: int := 0x10_0000_0000_0000

  /** `x | 0x1`, `x | 0x2` and `x | 0x80`: the bit is added unless it is already set. */
  function SetBit0(x: nat): nat { if x % 2 >= 1 then x else x + 1 }
  function SetBit1(x: nat): nat { if x % 4 >= 2 then x else x + 2 }
  function SetBit7(x: nat): nat { if x % 256 >= 128 then x else x + 128 }

  /** `x | 0x3`: present and writable. */
  function Link(x: nat): nat {
    SetBit1(SetBit0(x))
  }

  /** `x | 0x83`: present, writable, large page. */
  function LargePage(x: nat): nat {
    SetBit7(Link(x))
  }

  /** The 64-bit entry at each of the 1536 slots of the PML4, the PDPT and the PD. */
  function Slot(base: nat, k: nat): nat {
    if k == 0 then Link(Low64(base + 4096))
    else if k == 512 then Link(Low64(base + 8192))
    else if 1024 <= k < 1536 then LargePage((k - 1024) * 0x20_0000)
    else 0
  }

  function Word(bytes: seq<byte>, k: nat): nat
    requires 8 * k + 8 <= |bytes|
  {
    FromLe(bytes[8 * k..8 * k + 8])
  }

  ghost predicate IsIdentityTable(bytes: seq<byte>, base: nat) {
    |bytes| == TABLE_SIZE && forall k :: 0 <= k < SLOTS ==> Word(bytes, k) == Slot(base, k)
  }

  /** The table as one byte string. */
  function TableBytes(base: nat): (bytes: seq<byte>)
    ensures |bytes| == TABLE_SIZE
  {
    seq(TABLE_SIZE, (i: nat) => Le(Slot(base, i / 8), 8)[i % 8])
  }

  /** The slot values determine every byte of the table. */
  lemma TableIsUnique(bytes: seq<byte>, base: nat)
    requires IsIdentityTable(bytes, base)
    ensures bytes == TableBytes(base)
  {
    hide Le, FromLe, Slot;
    forall i | 0 <= i < TABLE_SIZE ensures bytes[i] == Le(Slot(base, i / 8), 8)[i % 8] {
      var k := i / 8;
      LeOfFromLe(bytes[8 * k..8 * k + 8]);
      assert Word(bytes, k) == Slot(base, k);
      assert bytes[8 * k..8 * k + 8][i % 8] == bytes[i];
    }
  }

  /** Whatever the two lowest bits were, `| 0x3` makes them both one. */
  lemma LinkIsSum(q: nat, r: nat)
    requires r < 4
    ensures Link(4 * q + r) == 4 * q + 3
  {
    if r == 0 {
      ModUnique(4 * q, 2, 2 * q, 0);
      ModUnique(4 * q + 1, 4, q, 1);
    } else if r == 1 {
      ModUnique(4 * q + 1, 2, 2 * q, 1);
      ModUnique(4 * q + 1, 4, q, 1);
    } else if r == 2 {
      ModUnique(4 * q + 2, 2, 2 * q + 1, 0);
      ModUnique(4 * q + 3, 4, q, 3);
    } else {
      ModUnique(4 * q + 3, 2, 2 * q + 1, 1);
      ModUnique(4 * q + 3, 4, q, 3);
    }
  }

  lemma LinkFits(x: u64)
    ensures Link(x) < TWO_64
  {
    hide Link;
    LinkIsSum(x / 4, x % 4);
  }

  lemma LargeFits(i: nat)
    requires i < 512
    ensures LargePage(i * 0x20_0000) < TWO_64
  {
  }

  lemma SlotFits(base: nat, k: nat)
    ensures Slot(base, k) < TWO_64
  {
    hide Link, Low64;
    LinkFits(Low64(base + 4096));
    LinkFits(Low64(base + 8192));
    if 1024 <= k < 1536 { LargeFits(k - 1024); }
  }

  /** A 64-bit store through a pointer: eight bytes, little-endian. */
  method WriteSlot(table: array<byte>, k: nat, v: nat)
    requires 8 * k + 8 <= table.Length && v < TWO_64
    modifies table
    ensures Word(table[..], k) == v
    ensures forall j :: 0 <= j && 8 * j + 8 <= table.Length && j != k ==> Word(table[..], j) == old(Word(table[..], j))
  {
    hide Le, FromLe;
    ghost var before := table[..];
    var bytes := Le(v, 8);
    forall i | 0 <= i < 8 {
      table[8 * k + i] := bytes[i];
    }
    assert table[..][8 * k..8 * k + 8] == bytes;
    Pow256Values();
    FromLeOfLe(v, 8);
    forall j | 0 <= j && 8 * j + 8 <= table.Length && j != k ensures Word(table[..], j) == Word(before, j) {
      assert table[..][8 * j..8 * j + 8] == before[8 * j..8 * j + 8];
    }
  }

  lemma {:induction false} FromLeOfZeros(s: seq<byte>)
    requires forall i :: 0 <= i < |s| ==> s[i] == 0
    ensures FromLe(s) == 0
  {
    if s != [] { FromLeOfZeros(s[1..]); }
  }

  lemma TableSlots(base: nat)
    ensures Slot(base, 0) == Link(Low64(base + 4096)) && Slot(base, 512) == Link(Low64(base + 8192))
    ensures forall i :: 0 <= i < 512 ==> Slot(base, 1024 + i) == LargePage(i * 0x20_0000)
    ensures forall k :: 0 <= k < 1024 && k != 0 && k != 512 ==> Slot(base, k) == 0
  {
  }

  lemma TableBytesAreTable(base: nat)
    ensures IsIdentityTable(TableBytes(base), base)
  {
    hide Le, FromLe, Slot;
    forall k | 0 <= k < SLOTS ensures Word(TableBytes(base), k) == Slot(base, k) {
      assert TableBytes(base)[8 * k..8 * k + 8] == Le(Slot(base, k), 8);
      SlotFits(base, k);
      Pow256Values();
      FromLeOfLe(Slot(base, k), 8);
    }
  }

  /** Bits 0, 1 and 7 of an aligned large page's address are free, so `| 0x83` adds. */
  lemma LargePageIsSum(i: nat)
    ensures LargePage(i * 0x20_0000) == i * 0x20_0000 + 0x83
  {
    hide Link;
    LinkIsSum(i * 0x8_0000, 0);
    ModUnique(i * 0x20_0000 + 3, 256, i * 0x2000, 3);
  }

  /** The 1536 entries, in numbers: two links, 512 large pages, and zeros. */
  lemma TableEntries(base: u64, k: nat)
    requires base + 8192 < TWO_64 && k < 1536
    ensures |TableBytes(base)| == 12288
    ensures FromLe(TableBytes(base)[8 * k..8 * k + 8]) ==
            if k == 0 then (base + 4096) / 4 * 4 + 3
            else if k == 512 then (base + 8192) / 4 * 4 + 3
            else if k >= 1024 then (k - 1024) * 0x20_0000 + 0x83
            else 0
  {
    hide FromLe, Link, LargePage, TableBytes;
    TableBytesAreTable(base);
    assert Word(TableBytes(base), k) == Slot(base, k);
    if k == 0 {
      ModUnique(base + 4096, 0x1_0000_0000_0000_0000, 0, base + 4096);
      LinkIsSum((base + 4096) / 4, (base + 4096) % 4);
    } else if k == 512 {
      ModUnique(base + 8192, 0x1_0000_0000_0000_0000, 0, base + 8192);
      LinkIsSum((base + 8192) / 4, (base + 8192) % 4);
    } else if k >= 1024 {
      LargePageIsSum(k - 1024);
    }
  }

  /** A debug build panics if the addresses of the lower tables overflow; a release build wraps. */
  method CreateIdentityMapping(build: Build, base: u64) returns (table: array<byte>)
    requires AddU64(build, base, 4096).Some? && AddU64(build, base, 8192).Some?
    ensures fresh(table) && table[..] == TableBytes(base) && IsIdentityTable(table[..], base)
  {
    hide FromLe, Le, Slot, Link, LargePage;
    table := new byte[TABLE_SIZE](_ => 0);
    forall k | 0 <= k < SLOTS ensures Word(table[..], k) == 0 {
      FromLeOfZeros(table[..][8 * k..8 * k + 8]);
    }
    TableSlots(base);
    SlotFits(base, 0);
    WriteSlot(table, 0, Link(AddU64(build, base, 4096).value));
    SlotFits(base, 512);
    WriteSlot(table, 512, Link(AddU64(build, base, 8192).value));
    for i := 0 to 512
      invariant table.Length == TABLE_SIZE && fresh(table)
      invariant forall k :: 0 <= k < SLOTS ==>
        Word(table[..], k) == if k < 1024 + i then Slot(base, k) else 0
    {
      SlotFits(base, 1024 + i);
      WriteSlot(table, 1024 + i, LargePage(i * 0x20_0000));
    }
    TableIsUnique(table[..], base);
  }

  // ---------------------------------------------------------------------------------------------
  // The walk.

  datatype Translation = NotPresent | Page(pa: nat, writable: bool) | Unbacked

  /** Bits 0, 1 and 7 of an entry. */
  function Present(e: nat): bool { e % 2 >= 1 }
  function Writable(e: nat): bool { e % 4 >= 2 }
  function Large(e: nat): bool { e % 256 >= 128 }

  /** Bits 51:12, 51:21 and 51:30 of an entry, each in place. */
  function Frame(e: nat): nat { e % 0x10_0000_0000_0000 - e % 0x1000 }
  function Frame2M(e: nat): nat { e % 0x10_0000_0000_0000 - e % 0x20_0000 }
  function Frame1G(e: nat): nat { e % 0x10_0000_0000_0000 - e % 0x4000_0000 }

  /** `n` consecutive bytes of guest memory, if all of them are mapped. */
  function Load(mem: Memory, a: nat, n: nat): (r: Option<seq<byte>>)
    ensures r.Some? ==> |r.value| == n
    decreases n
  {
    if n == 0 then Some([])
    else if a !in mem then None
    else
      match Load(mem, a + 1, n - 1)
      case None => None
      case Some(rest) => Some([mem[a]] + rest)
  }

  function ReadQword(mem: Memory, a: nat): Option<nat> {
    match Load(mem, a, 8)
    case None => None
    case Some(bytes) => Some(FromLe(bytes))
  }

  function EntryAt(mem: Memory, table: nat, index: nat): Option<nat> {
    ReadQword(mem, table + 8 * index)
  }

  /** Four-level translation of a linear address, with the large-page cases at levels three and two. */
  function Walk(mem: Memory, cr3: nat, va: nat): Translation {
    match EntryAt(mem, Frame(cr3), va / 0x80_0000_0000 % 512)
    case None => Unbacked
    case Some(pml4e) =>
      if !Present(pml4e) then NotPresent else
      match EntryAt(mem, Frame(pml4e), va / 0x4000_0000 % 512)
      case None => Unbacked
      case Some(pdpte) =>
        if !Present(pdpte) then NotPresent
        else if Large(pdpte) then
          Page(Frame1G(pdpte) + va % 0x4000_0000, Writable(pml4e) && Writable(pdpte))
        else
          match EntryAt(mem, Frame(pdpte), va / 0x20_0000 % 512)
          case None => Unbacked
          case Some(pde) =>
            if !Present(pde) then NotPresent
            else if Large(pde) then
              Page(Frame2M(pde) + va % 0x20_0000,
                   Writable(pml4e) && Writable(pdpte) && Writable(pde))
            else
              match EntryAt(mem, Frame(pde), va / 0x1000 % 512)
              case None => Unbacked
              case Some(pte) =>
                if !Present(pte) then NotPresent
                else Page(Frame(pte) + va % 0x1000,
                          Writable(pml4e) && Writable(pdpte) && Writable(pde) && Writable(pte))
  }

  lemma {:induction false} LoadZeros(mem: Memory, a: nat, n: nat)
    requires forall x: nat :: a <= x < a + n ==> x in mem && mem[x] == 0
    ensures Load(mem, a, n).Some? && FromLe(Load(mem, a, n).value) == 0
    decreases n
  {
    if n > 0 { LoadZeros(mem, a + 1, n - 1); }
  }

  /** Where the first table page reads as zero, no address is present. */
  lemma ZeroTablesMapNothing(mem: Memory, base: u64, va: u64)
    requires base % 4096 == 0 && base + 4096 <= TWO_52
    requires forall a: nat :: base <= a < base + 4096 ==> a in mem && mem[a] == 0
    ensures Walk(mem, base, va) == NotPresent
  {
    hide Load, FromLe;
    assert Frame(base) == base by { ModUnique(base, 0x10_0000_0000_0000, 0, base); }
    LoadZeros(mem, base + 8 * (va / 0x80_0000_0000 % 512), 8);
  }

  /** A 64-bit address whose bits 63:47 are all equal. */
  predicate Canonical(va: u64) {
    va < TWO_47 || va >= TWO_64 - TWO_47
  }

  /** The table's bytes are what guest memory holds from `base` on. */
  ghost predicate TableAt(mem: Memory, base: nat, bytes: seq<byte>) {
    forall a: nat :: base <= a < base + |bytes| ==> a in mem && mem[a] == bytes[a - base]
  }

  lemma {:induction false} LoadTable(mem: Memory, base: nat, bytes: seq<byte>, k: nat, n: nat)
    requires TableAt(mem, base, bytes) && k + n <= |bytes|
    ensures Load(mem, base + k, n) == Some(bytes[k..k + n])
    decreases n
  {
    if n == 0 {
      assert bytes[k..k + n] == [];
    } else {
      LoadTable(mem, base, bytes, k + 1, n - 1);
      assert base + k + 1 == base + (k + 1) && k + 1 + (n - 1) == k + n;
      assert base + k in mem && mem[base + k] == bytes[k];
      assert bytes[k..k + n] == [bytes[k]] + bytes[k + 1..k + n];
    }
  }

  lemma ReadSlot(mem: Memory, base: nat, bytes: seq<byte>, k: nat)
    requires IsIdentityTable(bytes, base) && TableAt(mem, base, bytes) && k < SLOTS
    ensures ReadQword(mem, base + 8 * k) == Some(Slot(base, k))
  {
    hide Load, FromLe, Slot;
    LoadTable(mem, base, bytes, 8 * k, 8);
    assert Word(bytes, k) == Slot(base, k);
  }

  lemma LinkFields(x: nat)
    requires x % 4096 == 0 && x <= TWO_52 - 4096
    ensures Present(Link(x)) && Writable(Link(x)) && !Large(Link(x)) && Frame(Link(x)) == x
  {
    hide Link;
    var q, e := x / 4096, x + 3;
    LinkIsSum(1024 * q, 0);
    ModUnique(e, 2, 2048 * q + 1, 1);
    ModUnique(e, 4, 1024 * q, 3);
    ModUnique(e, 256, 16 * q, 3);
    ModUnique(e, 4096, q, 3);
    ModUnique(e, 0x10_0000_0000_0000, 0, e);
  }

  lemma LargePageFields(i: nat)
    requires i < 512
    ensures var e := LargePage(i * 0x20_0000);
            Present(e) && Writable(e) && Large(e) && Frame2M(e) == i * 0x20_0000
  {
    hide Link;
    var x := i * 0x20_0000;
    LinkIsSum(i * 0x8_0000, 0);
    ModUnique(x + 3, 256, i * 0x2000, 3);
    var e := x + 131;
    ModUnique(e, 2, i * 0x10_0000 + 65, 1);
    ModUnique(e, 4, i * 0x8_0000 + 32, 3);
    ModUnique(e, 256, i * 0x2000, 131);
    ModUnique(e, 0x20_0000, i, 131);
    ModUnique(e, 0x10_0000_0000_0000, 0, e);
  }

  /** The table addresses neither wrap nor lose bits, and a zero entry is not present. */
  lemma BaseFacts(base: u64)
    requires base % 4096 == 0 && base + TABLE_SIZE <= TWO_52
    ensures Frame(base) == base && !Present(0)
    ensures Low64(base + 4096) == base + 4096 && Low64(base + 8192) == base + 8192
  {
    ModUnique(base, 0x10_0000_0000_0000, 0, base);
    ModUnique(base + 4096, 0x1_0000_0000_0000_0000, 0, base + 4096);
    ModUnique(base + 8192, 0x1_0000_0000_0000_0000, 0, base + 8192);
  }

  /** The three table indices of a canonical address. */
  lemma IndexFacts(va: u64)
    requires Canonical(va)
    ensures va / 0x80_0000_0000 % 512 == 0 <==> va < TWO_39
    ensures va < TWO_39 ==> (va / 0x4000_0000 % 512 == 0 <==> va < TWO_30)
    ensures va < TWO_30 ==> va / 0x20_0000 % 512 * 0x20_0000 + va % 0x20_0000 == va
  {
  }

  /** The two lower levels, for an address that the first PML4 entry covers. */
  lemma WalkPdpt(mem: Memory, base: u64, bytes: seq<byte>, va: u64)
    requires base % 4096 == 0 && base + TABLE_SIZE <= TWO_52
    requires IsIdentityTable(bytes, base) && TableAt(mem, base, bytes)
    requires va < TWO_39
    ensures var i3, i2 := va / 0x4000_0000 % 512, va / 0x20_0000 % 512;
            && EntryAt(mem, base + 4096, i3) == Some(if i3 == 0 then Link(base + 8192) else 0)
            && EntryAt(mem, base + 8192, i2) == Some(LargePage(i2 * 0x20_0000))
            && Present(Link(base + 8192)) && Writable(Link(base + 8192)) && !Large(Link(base + 8192))
            && Frame(Link(base + 8192)) == base + 8192
            && Present(LargePage(i2 * 0x20_0000)) && Writable(LargePage(i2 * 0x20_0000))
            && Large(LargePage(i2 * 0x20_0000)) && Frame2M(LargePage(i2 * 0x20_0000)) == i2 * 0x20_0000
  {
    hide ReadQword, Link, LargePage, FromLe, Slot, Present, Writable, Large, Frame, Frame2M, Low64;
    BaseFacts(base);
    var i3, i2 := va / 0x4000_0000 % 512, va / 0x20_0000 % 512;
    TableSlots(base);
    assert base + 4096 + 8 * i3 == base + 8 * (512 + i3);
    ReadSlot(mem, base, bytes, 512 + i3);
    assert base + 8192 + 8 * i2 == base + 8 * (1024 + i2);
    ReadSlot(mem, base, bytes, 1024 + i2);
    LinkFields(base + 8192);
    LargePageFields(i2);
  }

  /**
   Identity translation: for every page-aligned table below 2^52, the walk over the bytes written
   maps each address of the first gigabyte to itself, writable, and finds every other canonical
   address not present.
   */
  lemma IdentityTranslation(mem: Memory, base: u64, bytes: seq<byte>, va: u64)
    requires base % 4096 == 0 && base + TABLE_SIZE <= TWO_52
    requires IsIdentityTable(bytes, base) && TableAt(mem, base, bytes)
    requires Canonical(va)
    ensures Walk(mem, base, va) == if va < TWO_30 then Page(va, true) else NotPresent
  {
    hide ReadQword, Link, LargePage, FromLe, Slot, Low64, Present, Writable, Large, Frame, Frame2M;
    IndexFacts(va);
    BaseFacts(base);
    ReadSlot(mem, base, bytes, va / 0x80_0000_0000 % 512);
    TableSlots(base);
    if va < TWO_39 {
      LinkFields(base + 4096);
      WalkPdpt(mem, base, bytes, va);
    }
  }
}
