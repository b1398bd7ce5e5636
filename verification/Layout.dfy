/** Where the record command puts things in guest memory, and what that means for restoring them. */
module Layout {
  import opened Words
  import opened GuestMachine
  import opened GuestMemory
  import opened Loader
  import opened Paging

  const IMAGE_BASE: nat := 0x10_0000
  const STACK_SIZE: nat := 0x1_0000
  const NULL_SIZE: nat := 0x1000
  const TABLE_BASE: nat := 0x20_0000
  const MAX_IMAGE: nat := 0xF_0000

  function StackBase(size: nat): nat {
    IMAGE_BASE + PageRound(size)
  }

  /** The contents of the four host buffers. */
  datatype HostBuffers = HostBuffers(image: seq<byte>, stack: seq<byte>, nul: seq<byte>, table: seq<byte>)

  ghost predicate Shaped(c: HostBuffers, size: nat) {
    && |c.image| == size && |c.stack| == STACK_SIZE && |c.nul| == NULL_SIZE && |c.table| == TABLE_SIZE
    && size > 0 && size % 4096 == 0 && StackBase(size) < TWO_64
  }

  /** Before the guest starts, only the image and the page tables are not zero. */
  function InitialBuffers(image: seq<byte>): (c: HostBuffers)
    ensures c.image == image
  {
    HostBuffers(image, Zeros(STACK_SIZE), Zeros(NULL_SIZE), TableBytes(TABLE_BASE))
  }

  /** The mappings in the order the record command makes them. */
  function Mapped(c: HostBuffers): seq<Region> {
    [Region(IMAGE_BASE, c.image), Region(StackBase(|c.image|), c.stack), Region(0, c.nul), Region(TABLE_BASE, c.table)]
  }

  /** The snapshot's region map: four insertions, of which a later one replaces an earlier one. */
  function Captured(c: HostBuffers): RegionMap
    requires StackBase(|c.image|) < TWO_64
  {
    map[0 := c.nul][IMAGE_BASE := c.image][StackBase(|c.image|) := c.stack][TABLE_BASE := c.table]
  }

  /** The four regions are pairwise disjoint if and only if the image is at most 0xF0000 bytes. */
  lemma DisjointIff(c: HostBuffers, size: nat)
    requires Shaped(c, size)
    ensures Disjoint(Mapped(c)) <==> size <= MAX_IMAGE
    ensures PageRound(size) == size
    ensures size <= MAX_IMAGE ==>
      forall k, a: nat :: 0 <= k < 4 && Covers(Mapped(c)[k], a) ==> a < TWO_30
  {
    var rs := Mapped(c);
    assert PageRound(size) == size;
    if size > MAX_IMAGE {
      if size > 0x10_0000 {
        assert Covers(rs[0], TABLE_BASE) && Covers(rs[3], TABLE_BASE);
      } else {
        assert Covers(rs[1], TABLE_BASE) && Covers(rs[3], TABLE_BASE);
      }
    }
  }

  /** In terms of the executable's own header field: what the loader allocates fits just when it does. */
  lemma HeaderSizeDecides(sizeOfImage: u32)
    requires sizeOfImage > 0
    ensures var size := PageRound(sizeOfImage);
            && size > 0 && size % 4096 == 0 && StackBase(size) + STACK_SIZE < TWO_64
            && (size <= MAX_IMAGE <==> sizeOfImage <= MAX_IMAGE)
  {
  }

  lemma CapturedIsSeparate(c: HostBuffers, size: nat)
    requires Shaped(c, size) && size <= MAX_IMAGE
    ensures Separate(Captured(c))
  {
    assert PageRound(size) == size;
  }

  lemma OwnerIsRegion(c: HostBuffers, size: nat, a: nat)
    requires Shaped(c, size) && size <= MAX_IMAGE
    ensures var k := Owner(Mapped(c), a);
            && (k >= 0 ==> Mapped(c)[k].gpa in Captured(c) && Captured(c)[Mapped(c)[k].gpa] == Mapped(c)[k].bytes)
            && (k < 0 ==> forall g :: !CoveredBy(Captured(c), g, a))
  {
    hide Owner;
    var rs := Mapped(c);
    assert PageRound(size) == size;
    if Owner(rs, a) < 0 {
      assert !Covers(rs[0], a) && !Covers(rs[1], a) && !Covers(rs[2], a) && !Covers(rs[3], a);
    }
  }

  lemma CapturedAt(c: HostBuffers, size: nat, a: nat)
    requires Shaped(c, size) && size <= MAX_IMAGE && Separate(Captured(c))
    ensures a in View(Mapped(c)) <==> exists g :: CoveredBy(Captured(c), g, a)
    ensures forall g :: CoveredBy(Captured(c), g, a) ==> View(Mapped(c))[a] == Captured(c)[g][a - g]
  {
    hide View, Captured, Mapped, Owner;
    var rs, m := Mapped(c), Captured(c);
    OwnerIsRegion(c, size, a);
    ViewAt(rs, a);
    if Owner(rs, a) >= 0 {
      assert CoveredBy(m, rs[Owner(rs, a)].gpa, a);
    }
  }

  /** In a layout that fits, the captured region map describes the mapped memory, and is separate. */
  lemma CapturedDescribes(c: HostBuffers, size: nat)
    requires Shaped(c, size) && size <= MAX_IMAGE
    ensures Describes(Captured(c), View(Mapped(c))) && Separate(Captured(c)) && Consistent(Captured(c))
  {
    hide View, Mapped, Captured, PageRound;
    CapturedIsSeparate(c, size);
    var mem, m := View(Mapped(c)), Captured(c);
    forall a: nat
      ensures a in mem <==> exists g :: CoveredBy(m, g, a)
      ensures forall g :: CoveredBy(m, g, a) ==> mem[a] == m[g][a - g]
    {
      CapturedAt(c, size, a);
    }
  }

  ghost predicate Overlap(regions: RegionMap, g: u64, h: u64) {
    exists a :: CoveredBy(regions, g, a) && CoveredBy(regions, h, a)
  }

  /** No region that overlaps the tables is mapped after them. */
  ghost predicate TablesOnTop(regions: RegionMap, order: seq<u64>) {
    forall i, j :: 0 <= i < j < |order| && order[i] == TABLE_BASE ==> !Overlap(regions, order[j], TABLE_BASE)
  }

  /**
   The condition for restoring in an order to map what recording mapped: the stack is in the snapshot,
   and the tables, which recording maps last, are not covered up.
   */
  ghost predicate MapsAlike(c: HostBuffers, order: seq<u64>)
    requires StackBase(|c.image|) < TWO_64
  {
    |c.image| != 0x10_0000 && TablesOnTop(Captured(c), order)
  }

  lemma CapturedCatalogues(c: HostBuffers, size: nat)
    requires Shaped(c, size) && size != 0x10_0000
    ensures Catalogues(Captured(c), Mapped(c))
  {
    var m, rs := Captured(c), Mapped(c);
    assert PageRound(size) == size;
    forall g | g in m ensures exists k :: 0 <= k < |rs| && rs[k].gpa == g {
      assert rs[0].gpa == IMAGE_BASE && rs[1].gpa == StackBase(size) && rs[2].gpa == 0 && rs[3].gpa == TABLE_BASE;
    }
  }

  /** Only the tables overlap anything. */
  lemma OnlyTablesOverlap(c: HostBuffers, size: nat, i: nat, k: nat, a: nat)
    requires Shaped(c, size) && i < k < 4 && Covers(Mapped(c)[i], a) && Covers(Mapped(c)[k], a)
    ensures k == 3
  {
    assert PageRound(size) == size;
  }

  lemma OwnersAgree(c: HostBuffers, size: nat, order: seq<u64>, a: nat)
    requires Shaped(c, size) && IsOrder(order, Captured(c).Keys) && MapsAlike(c, order)
    ensures SameOwner(Mapped(c), Listed(order, Captured(c)), a)
  {
    var m, rs := Captured(c), Mapped(c);
    assert |rs| == 4 && rs[3].gpa == TABLE_BASE;
    hide Owner, Listed, Mapped, Captured, PageRound;
    var ls := Listed(order, m);
    var k, j := Owner(rs, a), Owner(ls, a);
    CapturedCatalogues(c, size);
    if j >= 0 {
      assert order[j] in m.Keys;
      var k' :| 0 <= k' < |rs| && rs[k'].gpa == order[j];
      assert Covers(rs[k'], a);
      if k' < k {
        OnlyTablesOverlap(c, size, k', k, a);
      }
    }
    if k >= 0 {
      assert rs[k].gpa in m.Keys;
      var i :| 0 <= i < |order| && order[i] == rs[k].gpa;
      assert Covers(ls[i], a);
      if k == 3 {
        assert CoveredBy(m, order[j], a) && CoveredBy(m, TABLE_BASE, a);
        assert Overlap(m, order[j], TABLE_BASE);
      }
    }
  }

  /** Restoring in such an order reproduces the recorder's memory. */
  lemma AlikeRestores(c: HostBuffers, size: nat, order: seq<u64>)
    requires Shaped(c, size) && IsOrder(order, Captured(c).Keys) && MapsAlike(c, order)
    ensures View(Listed(order, Captured(c))) == View(Mapped(c))
  {
    hide View, Mapped, Captured, PageRound, SameOwner, Catalogues, TablesOnTop;
    CapturedCatalogues(c, size);
    forall a: nat ensures SameOwner(Mapped(c), Listed(order, Captured(c)), a) {
      OwnersAgree(c, size, order, a);
    }
    SameOwnersShowTheSame(Captured(c), Mapped(c), order);
  }

  lemma FittingMapsAlike(c: HostBuffers, size: nat, order: seq<u64>)
    requires Shaped(c, size) && size <= MAX_IMAGE && IsOrder(order, Captured(c).Keys)
    ensures MapsAlike(c, order)
  {
    hide PageRound, Captured;
    CapturedIsSeparate(c, size);
    forall i, j | 0 <= i < j < |order| && order[i] == TABLE_BASE ensures !Overlap(Captured(c), order[j], TABLE_BASE) {
    }
  }

  /** For an image over 0xF0000 bytes, an order that does not map alike. */
  lemma CoveringOrder(c: HostBuffers, size: nat) returns (order: seq<u64>)
    requires Shaped(c, size) && size > MAX_IMAGE
    ensures IsOrder(order, Captured(c).Keys) && !MapsAlike(c, order)
  {
    var m := Captured(c);
    assert PageRound(size) == size;
    var g: u64 := if size > 0x10_0000 then IMAGE_BASE else StackBase(size);
    assert g in m && CoveredBy(m, TABLE_BASE, TABLE_BASE);
    order := OrderEndingWith(m.Keys, g);
    if size != 0x10_0000 {
      assert CoveredBy(m, g, TABLE_BASE);
      assert Overlap(m, g, TABLE_BASE);
      assert TABLE_BASE in m.Keys;
      var i :| 0 <= i < |order| && order[i] == TABLE_BASE;
      assert i < |order| - 1;
    }
  }

  /** Every order maps alike if and only if the image is at most 0xF0000 bytes. */
  lemma AllOrdersMapAlikeIff(c: HostBuffers, size: nat)
    requires Shaped(c, size)
    ensures size <= MAX_IMAGE <==> forall order :: IsOrder(order, Captured(c).Keys) ==> MapsAlike(c, order)
  {
    hide PageRound, MapsAlike;
    if size <= MAX_IMAGE {
      forall order | IsOrder(order, Captured(c).Keys) ensures MapsAlike(c, order) {
        FittingMapsAlike(c, size, order);
      }
    } else {
      var order := CoveringOrder(c, size);
    }
  }

  lemma TableStartsWith3()
    ensures TableBytes(TABLE_BASE)[0] == 3
  {
    assert Slot(TABLE_BASE, 0) == 0x20_1003;
    assert Le(0x20_1003, 8)[0] == 0x20_1003 % 256;
  }

  ghost predicate RestoresExactly(image: seq<byte>, order: seq<u64>)
    requires StackBase(|image|) < TWO_64 && IsOrder(order, Captured(InitialBuffers(image)).Keys)
  {
    View(Listed(order, Captured(InitialBuffers(image)))) == View(Mapped(InitialBuffers(image)))
  }

  /** If the stack's address collides with the tables', the stack is lost from the snapshot. */
  lemma CollisionLosesStack(image: seq<byte>, order: seq<u64>)
    requires |image| == 0x10_0000 && IsOrder(order, Captured(InitialBuffers(image)).Keys)
    ensures !RestoresExactly(image, order)
  {
    hide View;
    var c := InitialBuffers(image);
    var a := TABLE_BASE + TABLE_SIZE;
    ViewAt(Mapped(c), a);
    assert Covers(Mapped(c)[1], a);
    ViewOfListed(order, Captured(c), a);
    assert forall g :: !CoveredBy(Captured(c), g, a);
  }

  /**
   If the image or the stack runs into the tables, mapping that region last hides them: a guest
   restored in that order finds no address present at all.
   */
  lemma OverlapHidesTables(size: nat) returns (image: seq<byte>, order: seq<u64>)
    requires size % 4096 == 0 && size > MAX_IMAGE && size != 0x10_0000 && StackBase(size) < TWO_64
    ensures |image| == size && IsOrder(order, Captured(InitialBuffers(image)).Keys) && !RestoresExactly(image, order)
    ensures forall va: u64 ::
      Walk(View(Listed(order, Captured(InitialBuffers(image)))), TABLE_BASE, va) == NotPresent
  {
    hide View, TableBytes, Walk;
    image := Zeros(size);
    var c := InitialBuffers(image);
    var m := Captured(c);
    assert PageRound(size) == size;
    var g: u64 := if size > 0x10_0000 then IMAGE_BASE else StackBase(size);
    assert g in m && CoveredBy(m, g, TABLE_BASE) && m[g][TABLE_BASE - g] == 0;
    order := OrderEndingWith(m.Keys, g);
    ViewEndingWith(order, m, TABLE_BASE);
    ViewAt(Mapped(c), TABLE_BASE);
    assert Covers(Mapped(c)[3], TABLE_BASE);
    TableStartsWith3();
    var mem := View(Listed(order, m));
    forall a: nat | TABLE_BASE <= a < TABLE_BASE + 4096 ensures a in mem && mem[a] == 0 {
      assert CoveredBy(m, g, a) && m[g][a - g] == 0;
      ViewEndingWith(order, m, a);
    }
    forall va: u64 ensures Walk(mem, TABLE_BASE, va) == NotPresent {
      ZeroTablesMapNothing(mem, TABLE_BASE, va);
    }
  }

  /**
   Restoring the initial snapshot reproduces the recorder's initial memory for every image of a
   given size and every iteration order exactly when the image is at most 0xF0000 bytes.
   */
  lemma RestoreExactIff(size: nat)
    requires size > 0 && size % 4096 == 0 && StackBase(size) < TWO_64
    ensures size <= MAX_IMAGE <==>
            forall image: seq<byte>, order ::
              |image| == size && IsOrder(order, Captured(InitialBuffers(image)).Keys) ==> RestoresExactly(image, order)
  {
    if size <= MAX_IMAGE {
      forall image: seq<byte>, order | |image| == size && IsOrder(order, Captured(InitialBuffers(image)).Keys)
        ensures RestoresExactly(image, order)
      {
        FittingMapsAlike(InitialBuffers(image), size, order);
        AlikeRestores(InitialBuffers(image), size, order);
      }
    } else if size == 0x10_0000 {
      var image := Zeros(size);
      assert IMAGE_BASE in Captured(InitialBuffers(image)).Keys;
      var order := OrderEndingWith(Captured(InitialBuffers(image)).Keys, IMAGE_BASE);
      CollisionLosesStack(image, order);
    } else {
      var image, order := OverlapHidesTables(size);
    }
  }

  /**
   The guest the recorder boots translates every address of the first gigabyte to itself, whatever
   the image size, because the tables are mapped last.
   */
  lemma BootTranslation(c: HostBuffers, size: nat, va: u64)
    requires Shaped(c, size) && c.table == TableBytes(TABLE_BASE) && Canonical(va)
    ensures Walk(View(Mapped(c)), TABLE_BASE, va) == if va < TWO_30 then Page(va, true) else NotPresent
  {
    hide View, TableBytes, Walk;
    var mem := View(Mapped(c));
    forall a: nat | TABLE_BASE <= a < TABLE_BASE + |c.table| ensures a in mem && mem[a] == c.table[a - TABLE_BASE] {
      ViewAt(Mapped(c), a);
      assert Covers(Mapped(c)[3], a);
    }
    TableBytesAreTable(TABLE_BASE);
    IdentityTranslation(mem, TABLE_BASE, c.table, va);
  }

  // ---------------------------------------------------------------------------------------------
  // The host buffers after a run.

  /** The four host buffers once guest memory has become `mem`, hidden bytes left as they were. */
  function FinalBuffers(c: HostBuffers, mem: Memory): (r: HostBuffers)
    ensures |r.image| == |c.image|
  {
    var rs := Settle(Mapped(c), mem);
    HostBuffers(rs[0].bytes, rs[1].bytes, rs[2].bytes, rs[3].bytes)
  }

  lemma MappedFinalBuffers(c: HostBuffers, mem: Memory)
    ensures Mapped(FinalBuffers(c, mem)) == Settle(Mapped(c), mem)
  {
    hide SettledBytes;
  }

  /** Buffers that evolved under guest stores are determined by the memory the guest now sees. */
  lemma EvolvedBuffers(c: HostBuffers, c': HostBuffers)
    requires Evolves(Mapped(c), Mapped(c'))
    ensures c' == FinalBuffers(c, View(Mapped(c')))
  {
    hide View, SettledBytes;
    EvolvedIsSettled(Mapped(c), Mapped(c'));
    var rs := Mapped(c');
    assert c' == HostBuffers(rs[0].bytes, rs[1].bytes, rs[2].bytes, rs[3].bytes);
  }

  lemma FinalShape(c: HostBuffers, size: nat, mem: Memory)
    requires Shaped(c, size)
    ensures Shaped(FinalBuffers(c, mem), size)
    ensures SameShape(Captured(c), Captured(FinalBuffers(c, mem)))
  {
    hide SettledBytes, PageRound;
  }

  /**
   Mapped alike, the recorder's buffers captured after its run and a restored snapshot's after a run
   to the same memory are the same regions.
   */
  lemma FinalCapturesAgree(c: HostBuffers, size: nat, order: seq<u64>, mem: Memory)
    requires Shaped(c, size) && IsOrder(order, Captured(c).Keys) && MapsAlike(c, order)
    ensures Captured(FinalBuffers(c, mem)) == Reread(order, Captured(c), mem)
  {
    hide Mapped, Captured, PageRound, Settle, SettledBytes, FinalBuffers, TablesOnTop, Reread, Catalogues, SameOwner;
    CapturedCatalogues(c, size);
    forall a: nat ensures SameOwner(Mapped(c), Listed(order, Captured(c)), a) {
      OwnersAgree(c, size, order, a);
    }
    SameOwnersSettleAlike(Captured(c), Mapped(c), order, mem);
    FinalShape(c, size, mem);
    MappedFinalBuffers(c, mem);
    CapturedCatalogues(FinalBuffers(c, mem), size);
    CatalogueIsUnique(Captured(FinalBuffers(c, mem)), Reread(order, Captured(c), mem), Settle(Mapped(c), mem));
  }

  /**
   Not mapped alike, some address of the tables belongs to another region: a store there reaches the
   tables' buffer in the recording and not in the replay.
   */
  lemma MisplacedTables(c: HostBuffers, size: nat, order: seq<u64>) returns (a: nat)
    requires Shaped(c, size) && IsOrder(order, Captured(c).Keys) && !TablesOnTop(Captured(c), order)
    ensures TABLE_BASE <= a < TABLE_BASE + TABLE_SIZE
    ensures Owner(Mapped(c), a) == 3
    ensures var k := Owner(Listed(order, Captured(c)), a); k >= 0 && order[k] != TABLE_BASE
  {
    hide PageRound;
    var m := Captured(c);
    var i, j :| 0 <= i < j < |order| && order[i] == TABLE_BASE && Overlap(m, order[j], TABLE_BASE);
    a :| CoveredBy(m, order[j], a) && CoveredBy(m, TABLE_BASE, a);
    assert Covers(Mapped(c)[3], a);
    assert Covers(Listed(order, m)[j], a);
  }
}
