/**
 Guest physical memory as the host sees it: a list of mapped ranges, where a later mapping of an
 address replaces an earlier one.
 */
module GuestMemory {
  import opened Words
  import opened GuestMachine

  datatype Region = Region(gpa: nat, bytes: seq<byte>)

  predicate Covers(r: Region, a: nat) {
    r.gpa <= a < r.gpa + |r.bytes|
  }

  function Contents(r: Region): Memory {
    map a | r.gpa <= a < r.gpa + |r.bytes| && Covers(r, a) :: r.bytes[a - r.gpa]
  }

  /** What the guest sees through a list of mappings, in the order they were made. */
  function View(rs: seq<Region>): Memory {
    if rs == [] then map[] else View(rs[..|rs| - 1]) + Contents(rs[|rs| - 1])
  }

  /** The mapping that an address resolves to, or -1. */
  function Owner(rs: seq<Region>, a: nat): (k: int)
    ensures -1 <= k < |rs|
    ensures k >= 0 ==> Covers(rs[k], a)
    ensures forall j :: k < j < |rs| ==> !Covers(rs[j], a)
  {
    if rs == [] then -1
    else if Covers(rs[|rs| - 1], a) then |rs| - 1
    else Owner(rs[..|rs| - 1], a)
  }

  lemma {:induction false} ViewAt(rs: seq<Region>, a: nat)
    ensures a in View(rs) <==> Owner(rs, a) >= 0
    ensures Owner(rs, a) >= 0 ==> View(rs)[a] == rs[Owner(rs, a)].bytes[a - rs[Owner(rs, a)].gpa]
    decreases |rs|
  {
    if rs != [] { ViewAt(rs[..|rs| - 1], a); }
  }

  /** The same addresses and sizes, whatever the contents. */
  ghost predicate SameLayout(rs: seq<Region>, rs': seq<Region>) {
    |rs| == |rs'| && forall k :: 0 <= k < |rs| ==> rs[k].gpa == rs'[k].gpa && |rs[k].bytes| == |rs'[k].bytes|
  }

  /** A guest store: it changes one byte of the one mapping that owns the address. */
  function StoreAt(rs: seq<Region>, a: nat, b: byte): (r: seq<Region>)
    ensures |r| == |rs|
    ensures forall k :: 0 <= k < |rs| ==> r[k].gpa == rs[k].gpa && |r[k].bytes| == |rs[k].bytes|
  {
    var k := Owner(rs, a);
    if k < 0 then rs else rs[k := Region(rs[k].gpa, rs[k].bytes[a - rs[k].gpa := b])]
  }

  lemma {:induction false} OwnerDependsOnShape(rs: seq<Region>, rs': seq<Region>, a: nat)
    requires SameLayout(rs, rs')
    ensures Owner(rs, a) == Owner(rs', a)
    decreases |rs|
  {
    if rs != [] { OwnerDependsOnShape(rs[..|rs| - 1], rs'[..|rs| - 1], a); }
  }

  ghost predicate SameAfterStore(rs: seq<Region>, a: nat, b: byte, x: nat) {
    var before, after := View(rs), View(StoreAt(rs, a, b));
    && (x in after <==> x in before)
    && (x in after ==> after[x] == if x == a then b else before[x])
  }

  lemma StoreReachesOneAddress(rs: seq<Region>, a: nat, b: byte, x: nat)
    ensures SameAfterStore(rs, a, b, x)
  {
    hide View;
    hide Owner;
    var rs' := StoreAt(rs, a, b);
    ViewAt(rs, x);
    ViewAt(rs', x);
    OwnerDependsOnShape(rs, rs', x);
  }

  /** Through the view, a store at a mapped address is a point update; elsewhere it is nothing. */
  lemma ViewAfterStore(rs: seq<Region>, a: nat, b: byte)
    ensures View(StoreAt(rs, a, b)) == if a in View(rs) then View(rs)[a := b] else View(rs)
  {
    hide View, StoreAt;
    var before, after := View(rs), View(StoreAt(rs, a, b));
    forall x: nat
      ensures x in after <==> x in before
      ensures x in after ==> after[x] == if x == a then b else before[x]
    {
      StoreReachesOneAddress(rs, a, b, x);
    }
    if a in before {
      assert after == before[a := b];
    } else {
      assert after == before;
    }
  }

  // ---------------------------------------------------------------------------------------------
  // What guest stores do to the buffers behind the mappings, hidden bytes included.

  /** From `rs` to `rs'` only bytes that their own mapping owns may have changed. */
  ghost predicate Evolves(rs: seq<Region>, rs': seq<Region>) {
    && SameLayout(rs, rs')
    && forall k, a: nat :: 0 <= k < |rs| && Covers(rs[k], a) && Owner(rs, a) != k ==>
         rs'[k].bytes[a - rs[k].gpa] == rs[k].bytes[a - rs[k].gpa]
  }

  lemma EvolvesFromItself(rs: seq<Region>)
    ensures Evolves(rs, rs)
  {
  }

  lemma EvolvesThrough(rs: seq<Region>, rs': seq<Region>, rs'': seq<Region>)
    requires Evolves(rs, rs') && Evolves(rs', rs'')
    ensures Evolves(rs, rs'')
  {
    hide Owner;
    forall k, a: nat | 0 <= k < |rs| && Covers(rs[k], a) && Owner(rs, a) != k
      ensures rs''[k].bytes[a - rs[k].gpa] == rs[k].bytes[a - rs[k].gpa]
    {
      OwnerDependsOnShape(rs, rs', a);
      assert Covers(rs'[k], a);
    }
  }

  lemma StoreEvolves(rs: seq<Region>, a: nat, b: byte)
    ensures Evolves(rs, StoreAt(rs, a, b))
  {
    hide Owner;
  }

  function SettledBytes(rs: seq<Region>, k: nat, mem: Memory): (bytes: seq<byte>)
    requires k < |rs|
    ensures |bytes| == |rs[k].bytes|
  {
    var r := rs[k];
    seq(|r.bytes|, (i: nat) requires i < |r.bytes| =>
      if Owner(rs, r.gpa + i) == k && r.gpa + i in mem then mem[r.gpa + i] else r.bytes[i])
  }

  /** The contents of the buffers once guest memory has become `mem`: hidden bytes stay as they were. */
  function Settle(rs: seq<Region>, mem: Memory): (rs': seq<Region>)
    ensures |rs'| == |rs|
    ensures forall k :: 0 <= k < |rs| ==> rs'[k] == Region(rs[k].gpa, SettledBytes(rs, k, mem))
  {
    seq(|rs|, (k: nat) requires k < |rs| => Region(rs[k].gpa, SettledBytes(rs, k, mem)))
  }

  /** Buffers that evolved from `rs` are determined by `rs` and by the memory the guest now sees. */
  lemma EvolvedIsSettled(rs: seq<Region>, rs': seq<Region>)
    requires Evolves(rs, rs')
    ensures rs' == Settle(rs, View(rs'))
  {
    hide Owner, View;
    var mem := View(rs');
    forall k | 0 <= k < |rs| ensures rs'[k].bytes == SettledBytes(rs, k, mem) {
      forall i | 0 <= i < |rs[k].bytes| ensures rs'[k].bytes[i] == SettledBytes(rs, k, mem)[i] {
        var a := rs[k].gpa + i;
        assert Covers(rs[k], a) && Covers(rs'[k], a);
        OwnerDependsOnShape(rs, rs', a);
        ViewAt(rs', a);
      }
    }
  }

  lemma SettleEvolves(rs: seq<Region>, mem: Memory)
    ensures Evolves(rs, Settle(rs, mem))
  {
    hide Owner;
  }

  /** Settling to a memory over the mapped addresses shows the guest exactly that memory. */
  lemma ViewOfSettle(rs: seq<Region>, mem: Memory)
    requires mem.Keys == View(rs).Keys
    ensures View(Settle(rs, mem)) == mem
  {
    hide Owner, View;
    var rs' := Settle(rs, mem);
    forall a: nat
      ensures a in View(rs') <==> a in mem
      ensures a in mem ==> View(rs')[a] == mem[a]
    {
      ViewAt(rs, a);
      ViewAt(rs', a);
      OwnerDependsOnShape(rs, rs', a);
      assert a in mem <==> a in View(rs);
    }
  }

  /** Settling one more guest store is storing it into the settled buffers. */
  lemma SettleStores(rs: seq<Region>, mem: Memory, a: nat, b: byte)
    requires mem.Keys == View(rs).Keys && a in mem
    ensures Settle(rs, mem[a := b]) == StoreAt(Settle(rs, mem), a, b)
  {
    hide View, Settle, StoreAt, Evolves;
    var rs' := Settle(rs, mem);
    ViewOfSettle(rs, mem);
    ViewAfterStore(rs', a, b);
    SettleEvolves(rs, mem);
    StoreEvolves(rs', a, b);
    EvolvesThrough(rs, rs', StoreAt(rs', a, b));
    EvolvedIsSettled(rs, StoreAt(rs', a, b));
  }

  /** No address is mapped twice. */
  ghost predicate Disjoint(rs: seq<Region>) {
    forall i, j, a: nat :: 0 <= i < j < |rs| ==> !(Covers(rs[i], a) && Covers(rs[j], a))
  }

  lemma OwnerWhenDisjoint(rs: seq<Region>, k: nat, a: nat)
    requires Disjoint(rs) && k < |rs| && Covers(rs[k], a)
    ensures Owner(rs, a) == k
  {
  }

  // ---------------------------------------------------------------------------------------------
  // Region maps, as a snapshot holds them.

  type RegionMap = map<u64, seq<byte>>

  /** `order` enumerates the keys of a map, each once: one possible iteration order. */
  ghost predicate IsOrder(order: seq<u64>, keys: set<u64>) {
    && (forall g :: g in keys <==> g in order)
    && (forall i, j :: 0 <= i < j < |order| ==> order[i] != order[j])
  }

  function Listed(order: seq<u64>, regions: RegionMap): (rs: seq<Region>)
    requires forall g :: g in order ==> g in regions
    ensures |rs| == |order|
    ensures forall i :: 0 <= i < |order| ==> rs[i] == Region(order[i], regions[order[i]])
  {
    seq(|order|, i requires 0 <= i < |order| => Region(order[i], regions[order[i]]))
  }

  ghost predicate CoveredBy(regions: RegionMap, g: u64, a: nat) {
    g in regions && g <= a < g + |regions[g]|
  }

  /** Wherever two regions overlap, they hold the same byte. */
  ghost predicate Consistent(regions: RegionMap) {
    forall g, h, a :: CoveredBy(regions, g, a) && CoveredBy(regions, h, a) ==>
      regions[g][a - g] == regions[h][a - h]
  }

  /** No two regions overlap at all. */
  ghost predicate Separate(regions: RegionMap) {
    forall g, h, a :: CoveredBy(regions, g, a) && CoveredBy(regions, h, a) ==> g == h
  }

  /** Under consistency the view at an address is the byte of any region that covers it. */
  lemma ViewOfListed(order: seq<u64>, regions: RegionMap, a: nat)
    requires IsOrder(order, regions.Keys)
    ensures a in View(Listed(order, regions)) <==> exists g :: CoveredBy(regions, g, a)
    ensures Consistent(regions) ==>
      forall g :: CoveredBy(regions, g, a) ==> View(Listed(order, regions))[a] == regions[g][a - g]
  {
    var rs := Listed(order, regions);
    var k := Owner(rs, a);
    ViewAt(rs, a);
    if k >= 0 {
      assert CoveredBy(regions, order[k], a);
    }
    if g :| CoveredBy(regions, g, a) {
      var i :| 0 <= i < |order| && order[i] == g;
      assert Covers(rs[i], a);
      assert k >= i;
    }
  }

  /** Every finite set of keys has an iteration order that ends with any chosen member. */
  lemma {:induction false} OrderEndingWith(keys: set<u64>, g: u64) returns (order: seq<u64>)
    requires g in keys
    ensures IsOrder(order, keys) && order != [] && order[|order| - 1] == g
    decreases |keys|
  {
    var rest := keys - {g};
    if rest == {} {
      order := [g];
      assert keys == {g};
    } else {
      var h :| h in rest;
      var init := OrderEndingWith(rest, h);
      order := init + [g];
      assert forall x :: x in order <==> x in init || x == g;
    }
  }

  lemma ConsistentViewsAgree(a: seq<u64>, b: seq<u64>, regions: RegionMap)
    requires Consistent(regions) && IsOrder(a, regions.Keys) && IsOrder(b, regions.Keys)
    ensures View(Listed(a, regions)) == View(Listed(b, regions))
  {
    hide View, Listed;
    var va, vb := View(Listed(a, regions)), View(Listed(b, regions));
    forall x: nat
      ensures x in va <==> x in vb
      ensures x in va ==> va[x] == vb[x]
    {
      ViewOfListed(a, regions, x);
      ViewOfListed(b, regions, x);
    }
  }

  lemma ViewEndingWith(order: seq<u64>, regions: RegionMap, a: nat)
    requires IsOrder(order, regions.Keys) && order != [] && CoveredBy(regions, order[|order| - 1], a)
    ensures var g := order[|order| - 1];
            a in View(Listed(order, regions)) && View(Listed(order, regions))[a] == regions[g][a - g]
  {
    ViewAt(Listed(order, regions), a);
    assert Covers(Listed(order, regions)[|order| - 1], a);
  }

  /**
   Mapping a snapshot's regions gives the same guest memory in every iteration order exactly when
   overlapping regions agree on the bytes they share.
   */
  lemma OrderIrrelevantIff(regions: RegionMap)
    ensures Consistent(regions) <==>
            forall a, b :: IsOrder(a, regions.Keys) && IsOrder(b, regions.Keys) ==>
              View(Listed(a, regions)) == View(Listed(b, regions))
  {
    hide View;
    if Consistent(regions) {
      forall a, b | IsOrder(a, regions.Keys) && IsOrder(b, regions.Keys)
        ensures View(Listed(a, regions)) == View(Listed(b, regions))
      {
        ConsistentViewsAgree(a, b, regions);
      }
    } else {
      var g, h, x :| CoveredBy(regions, g, x) && CoveredBy(regions, h, x)
                     && regions[g][x - g] != regions[h][x - h];
      var a := OrderEndingWith(regions.Keys, g);
      var b := OrderEndingWith(regions.Keys, h);
      ViewEndingWith(a, regions, x);
      ViewEndingWith(b, regions, x);
    }
  }

  /** Memory is mapped exactly where some region is, and holds the byte of every region there. */
  ghost predicate Describes(regions: RegionMap, mem: Memory) {
    && (forall a: nat :: a in mem <==> exists g :: CoveredBy(regions, g, a))
    && (forall g, a :: CoveredBy(regions, g, a) ==> mem[a] == regions[g][a - g])
  }

  /** Restoring regions that agree where they overlap, in any order, gives exactly the captured memory. */
  lemma RestoreIsExact(order: seq<u64>, regions: RegionMap)
    requires IsOrder(order, regions.Keys) && Consistent(regions)
    ensures Describes(regions, View(Listed(order, regions)))
  {
    forall a: nat
      ensures a in View(Listed(order, regions)) <==> exists g :: CoveredBy(regions, g, a)
      ensures forall g :: CoveredBy(regions, g, a) ==> View(Listed(order, regions))[a] == regions[g][a - g]
    {
      ViewOfListed(order, regions, a);
    }
  }

  ghost predicate SameShape(a: RegionMap, b: RegionMap) {
    a.Keys == b.Keys && forall g :: g in a ==> |a[g]| == |b[g]|
  }

  // ---------------------------------------------------------------------------------------------
  // A restored snapshot after the guest has run on its buffers.

  function RereadBytes(order: seq<u64>, regions: RegionMap, g: u64, mem: Memory): (bytes: seq<byte>)
    requires g in regions && forall h :: h in order ==> h in regions
    ensures |bytes| == |regions[g]|
  {
    seq(|regions[g]|, (i: nat) requires i < |regions[g]| =>
      var k := Owner(Listed(order, regions), g + i);
      if k >= 0 && order[k] == g && g + i in mem then mem[g + i] else regions[g][i])
  }

  /** The region map once guest memory, mapped in the given order, has become `mem`. */
  function Reread(order: seq<u64>, regions: RegionMap, mem: Memory): (r: RegionMap)
    requires forall h :: h in order ==> h in regions
    ensures SameShape(regions, r)
  {
    map g | g in regions :: RereadBytes(order, regions, g, mem)
  }

  lemma ListedReread(order: seq<u64>, regions: RegionMap, mem: Memory)
    requires IsOrder(order, regions.Keys)
    ensures Listed(order, Reread(order, regions, mem)) == Settle(Listed(order, regions), mem)
  {
    hide Owner, Listed;
    var rs, rs' := Listed(order, regions), Listed(order, Reread(order, regions, mem));
    forall k | 0 <= k < |order| ensures rs'[k].bytes == SettledBytes(rs, k, mem) {
      assert order[k] in order;
      forall i | 0 <= i < |rs[k].bytes| ensures rs'[k].bytes[i] == SettledBytes(rs, k, mem)[i] {
        var j := Owner(rs, order[k] + i);
        assert j >= 0 && order[j] == order[k] ==> j == k;
      }
    }
  }

  lemma ListedDetermines(order: seq<u64>, a: RegionMap, b: RegionMap)
    requires IsOrder(order, a.Keys) && a.Keys == b.Keys && Listed(order, a) == Listed(order, b)
    ensures a == b
  {
    hide Listed;
    var rs := Listed(order, a);
    forall g | g in a ensures a[g] == b[g] {
      var i :| 0 <= i < |order| && order[i] == g;
      assert rs[i] == Region(g, a[g]) == Region(g, b[g]);
    }
  }

  /** Buffers restored in some order and then run on hold what rereading memory in that order gives. */
  lemma EvolvedIsReread(order: seq<u64>, regions: RegionMap, now: RegionMap)
    requires IsOrder(order, regions.Keys) && regions.Keys == now.Keys
    requires Evolves(Listed(order, regions), Listed(order, now))
    ensures now == Reread(order, regions, View(Listed(order, now)))
  {
    hide View, Listed, Settle, Evolves;
    var mem := View(Listed(order, now));
    EvolvedIsSettled(Listed(order, regions), Listed(order, now));
    ListedReread(order, regions, mem);
    ListedDetermines(order, now, Reread(order, regions, mem));
  }

  // ---------------------------------------------------------------------------------------------
  // Two mappings of the same regions in different orders.

  /** The map holds exactly the listed regions, no two of them at one address. */
  ghost predicate Catalogues(m: RegionMap, rs: seq<Region>) {
    && (forall k :: 0 <= k < |rs| ==> rs[k].gpa in m && m[rs[k].gpa] == rs[k].bytes)
    && (forall g :: g in m ==> exists k :: 0 <= k < |rs| && rs[k].gpa == g)
    && (forall i, k :: 0 <= i < k < |rs| ==> rs[i].gpa != rs[k].gpa)
  }

  lemma CatalogueIsUnique(a: RegionMap, b: RegionMap, rs: seq<Region>)
    requires Catalogues(a, rs) && Catalogues(b, rs)
    ensures a == b
  {
    assert forall g :: g in a <==> g in b;
  }

  /** An address resolves to the same region through both lists, or through neither. */
  ghost predicate SameOwner(rs: seq<Region>, ls: seq<Region>, a: nat) {
    var k, j := Owner(rs, a), Owner(ls, a);
    (k < 0 <==> j < 0) && (k >= 0 ==> rs[k].gpa == ls[j].gpa)
  }

  /** Then the guest sees the same memory through both. */
  lemma SameOwnersShowTheSame(m: RegionMap, rs: seq<Region>, order: seq<u64>)
    requires Catalogues(m, rs) && IsOrder(order, m.Keys)
    requires forall a: nat :: SameOwner(rs, Listed(order, m), a)
    ensures View(Listed(order, m)) == View(rs)
  {
    hide View, Listed, Owner;
    var ls := Listed(order, m);
    forall a: nat
      ensures a in View(ls) <==> a in View(rs)
      ensures a in View(rs) ==> View(ls)[a] == View(rs)[a]
    {
      ViewAt(rs, a);
      ViewAt(ls, a);
      assert SameOwner(rs, ls, a);
    }
  }

  /** And running to the same memory leaves the same bytes behind both, hidden ones included. */
  lemma SameOwnersSettleAlike(m: RegionMap, rs: seq<Region>, order: seq<u64>, mem: Memory)
    requires Catalogues(m, rs) && IsOrder(order, m.Keys)
    requires forall a: nat :: SameOwner(rs, Listed(order, m), a)
    ensures Catalogues(Reread(order, m, mem), Settle(rs, mem))
  {
    hide Listed, Owner;
    var ls, m', rs' := Listed(order, m), Reread(order, m, mem), Settle(rs, mem);
    forall k | 0 <= k < |rs| ensures m'[rs[k].gpa] == rs'[k].bytes {
      forall i | 0 <= i < |rs[k].bytes| ensures m'[rs[k].gpa][i] == rs'[k].bytes[i] {
        assert SameOwner(rs, ls, rs[k].gpa + i);
      }
    }
    forall g | g in m' ensures exists k :: 0 <= k < |rs'| && rs'[k].gpa == g {
      var k :| 0 <= k < |rs| && rs[k].gpa == g;
      assert rs'[k].gpa == g;
    }
  }
}
