/** The byte stream that `Snapshot::hash_state` feeds to the hasher, as a canonical form. */
module StateHash {
  import opened Words
  import opened GuestMachine
  import opened GuestMemory

  ghost predicate Increasing(s: seq<u64>) {
    forall i, j :: 0 <= i < j < |s| ==> s[i] < s[j]
  }

  lemma IncreasingCons(x: u64, s: seq<u64>)
    requires Increasing(s) && forall y :: y in s ==> x < y
    ensures Increasing([x] + s)
  {
    var t := [x] + s;
    forall i, j | 0 <= i < j < |t| ensures t[i] < t[j] {
      assert t[j] == s[j - 1] && s[j - 1] in s && (i > 0 ==> t[i] == s[i - 1]);
    }
  }

  function Insert(x: u64, s: seq<u64>): (r: seq<u64>)
    ensures forall y :: y in r <==> y == x || y in s
    ensures Increasing(s) && x !in s ==> Increasing(r)
  {
    if s == [] then [x]
    else if x < s[0] then [x] + s
    else
      var r := [s[0]] + Insert(x, s[1..]);
      assert forall y :: y in s <==> y == s[0] || y in s[1..];
      assert Increasing(s) && x !in s ==> Increasing(r) by {
        if Increasing(s) && x !in s {
          IncreasingCons(s[0], Insert(x, s[1..]));
        }
      }
      r
  }

  /** The keys in increasing order. */
  ghost function Sorted(keys: set<u64>): (s: seq<u64>)
    ensures Increasing(s) && forall g :: g in s <==> g in keys
  {
    if keys == {} then [] else
    var x :| x in keys;
    Insert(x, Sorted(keys - {x}))
  }

  /** There is only one increasing sequence with given elements, so the order of insertion is lost. */
  lemma {:induction false} SortedIsUnique(a: seq<u64>, b: seq<u64>)
    requires Increasing(a) && Increasing(b)
    requires forall g :: g in a <==> g in b
    ensures a == b
  {
    assert b != [] ==> b[0] in a;
    assert a != [] ==> a[0] in b;
    if a != [] {
      assert a[0] == b[0];
      forall g ensures g in a[1..] <==> g in b[1..] {
        assert g in a <==> g == a[0] || g in a[1..];
        assert g in b <==> g == b[0] || g in b[1..];
      }
      SortedIsUnique(a[1..], b[1..]);
    }
  }

  function RegisterStream(registers: seq<RegValue>): (s: seq<byte>)
    ensures |s| == 8 * |registers|
  {
    if registers == [] then []
    else RegisterStream(registers[..|registers| - 1]) + Le(registers[|registers| - 1].low, 8)
  }

  /** A hashed slice is preceded by its length, itself preceded by the region's address. */
  function RegionChunk(r: Region): seq<byte> {
    Le(r.gpa, 8) + Le(|r.bytes|, 8) + r.bytes
  }

  function RegionStream(rs: seq<Region>): seq<byte> {
    if rs == [] then [] else RegionStream(rs[..|rs| - 1]) + RegionChunk(rs[|rs| - 1])
  }

  ghost function HashStream(registers: seq<RegValue>, regions: RegionMap): seq<byte> {
    RegisterStream(registers) + RegionStream(Listed(Sorted(regions.Keys), regions))
  }

  /** Every length fits the 64-bit prefix, as any host buffer's does. */
  ghost predicate Hashable(regions: RegionMap) {
    forall g :: g in regions ==> |regions[g]| < TWO_64
  }

  ghost predicate Addressable(rs: seq<Region>) {
    forall i :: 0 <= i < |rs| ==> rs[i].gpa < TWO_64 && |rs[i].bytes| < TWO_64
  }

  ghost predicate SameLow(a: seq<RegValue>, b: seq<RegValue>) {
    |a| == |b| && forall i :: 0 <= i < |a| ==> a[i].low == b[i].low
  }

  lemma LeInjective(a: nat, b: nat, width: nat)
    requires a < Pow256(width) && b < Pow256(width) && Le(a, width) == Le(b, width)
    ensures a == b
  {
    FromLeOfLe(a, width);
    FromLeOfLe(b, width);
  }

  lemma ConcatInjective<T>(a: seq<T>, b: seq<T>, resta: seq<T>, restb: seq<T>)
    requires |a| == |b| && a + resta == b + restb
    ensures a == b && resta == restb
  {
    assert (a + resta)[..|a|] == a && (a + resta)[|a|..] == resta;
    assert (b + restb)[..|b|] == b && (b + restb)[|b|..] == restb;
  }

  lemma {:induction false} RegisterStreamInjective(a: seq<RegValue>, b: seq<RegValue>)
    requires |a| == |b|
    ensures RegisterStream(a) == RegisterStream(b) <==> SameLow(a, b)
  {
    hide Le;
    if a != [] {
      var n := |a| - 1;
      RegisterStreamInjective(a[..n], b[..n]);
      if RegisterStream(a) == RegisterStream(b) {
        ConcatInjective(RegisterStream(a[..n]), RegisterStream(b[..n]), Le(a[n].low, 8), Le(b[n].low, 8));
        Pow256Values();
        LeInjective(a[n].low, b[n].low, 8);
      }
    }
  }

  lemma {:induction false} RegionStreamFirst(rs: seq<Region>)
    requires rs != []
    ensures RegionStream(rs) == RegionChunk(rs[0]) + RegionStream(rs[1..])
    decreases |rs|
  {
    hide RegionChunk;
    var n := |rs| - 1;
    if n > 0 {
      RegionStreamFirst(rs[..n]);
      assert rs[..n][1..] == rs[1..][..n - 1];
      assert RegionStream(rs[1..]) == RegionStream(rs[1..][..n - 1]) + RegionChunk(rs[n]);
    } else {
      assert rs[..0] == [] && rs[1..] == [];
    }
  }

  lemma EmptyStream(rs: seq<Region>)
    ensures RegionStream(rs) == [] <==> rs == []
  {
    hide Le;
  }

  lemma ChunkInjective(a: Region, b: Region, resta: seq<byte>, restb: seq<byte>)
    requires a.gpa < TWO_64 && |a.bytes| < TWO_64 && b.gpa < TWO_64 && |b.bytes| < TWO_64
    requires RegionChunk(a) + resta == RegionChunk(b) + restb
    ensures a == b && resta == restb
  {
    hide Le;
    var heada, heada' := Le(a.gpa, 8), Le(|a.bytes|, 8);
    var headb, headb' := Le(b.gpa, 8), Le(|b.bytes|, 8);
    assert RegionChunk(a) + resta == heada + (heada' + (a.bytes + resta));
    assert RegionChunk(b) + restb == headb + (headb' + (b.bytes + restb));
    ConcatInjective(heada, headb, heada' + (a.bytes + resta), headb' + (b.bytes + restb));
    ConcatInjective(heada', headb', a.bytes + resta, b.bytes + restb);
    Pow256Values();
    LeInjective(a.gpa, b.gpa, 8);
    LeInjective(|a.bytes|, |b.bytes|, 8);
    ConcatInjective(a.bytes, b.bytes, resta, restb);
  }

  lemma {:induction false} RegionStreamInjective(a: seq<Region>, b: seq<Region>)
    requires Addressable(a) && Addressable(b)
    requires RegionStream(a) == RegionStream(b)
    ensures a == b
    decreases |a|
  {
    hide RegionStream, RegionChunk;
    EmptyStream(a);
    EmptyStream(b);
    if a != [] { RegionStreamFirst(a); }
    if b != [] { RegionStreamFirst(b); }
    if a != [] && b != [] {
      ChunkInjective(a[0], b[0], RegionStream(a[1..]), RegionStream(b[1..]));
      RegionStreamInjective(a[1..], b[1..]);
      assert a == [a[0]] + a[1..] && b == [b[0]] + b[1..];
    }
  }

  lemma ListedInjective(x: RegionMap, y: RegionMap)
    requires Listed(Sorted(x.Keys), x) == Listed(Sorted(y.Keys), y)
    ensures x == y
  {
    hide Sorted, Listed;
    var sx, sy := Sorted(x.Keys), Sorted(y.Keys);
    var listed := Listed(sx, x);
    forall i | 0 <= i < |sx| ensures sx[i] == sy[i] && x[sx[i]] == y[sx[i]] {
      assert listed[i] == Region(sx[i], x[sx[i]]) == Region(sy[i], y[sy[i]]);
    }
    assert sx == sy;
    assert x.Keys == y.Keys;
    forall g | g in x ensures x[g] == y[g] {
      var i :| 0 <= i < |sx| && sx[i] == g;
    }
  }

  /**
   Canonical hash input: with the same number of registers, two snapshots feed the hasher the same
   bytes if and only if their low register halves and their region maps are equal.
   */
  lemma HashStreamIsCanonical(ra: seq<RegValue>, ma: RegionMap, rb: seq<RegValue>, mb: RegionMap)
    requires |ra| == |rb| && Hashable(ma) && Hashable(mb)
    ensures HashStream(ra, ma) == HashStream(rb, mb) <==> SameLow(ra, rb) && ma == mb
  {
    hide RegionStream, RegisterStream;
    RegisterStreamInjective(ra, rb);
    if HashStream(ra, ma) == HashStream(rb, mb) {
      var la, lb := Listed(Sorted(ma.Keys), ma), Listed(Sorted(mb.Keys), mb);
      ConcatInjective(RegisterStream(ra), RegisterStream(rb), RegionStream(la), RegionStream(lb));
      RegionStreamInjective(la, lb);
      ListedInjective(ma, mb);
    }
  }

  function LowParts(registers: seq<RegValue>): (parts: seq<seq<byte>>)
    ensures |parts| == |registers|
  {
    seq(|registers|, i requires 0 <= i < |registers| => Le(registers[i].low, 8))
  }

  function ChunkParts(order: seq<u64>, regions: RegionMap): (parts: seq<seq<byte>>)
    requires forall g :: g in order ==> g in regions
    ensures |parts| == |order|
  {
    seq(|order|, i requires 0 <= i < |order| =>
      Le(order[i], 8) + Le(|regions[order[i]]|, 8) + regions[order[i]])
  }

  lemma {:induction false} RegisterStreamIsFlat(registers: seq<RegValue>)
    ensures RegisterStream(registers) == Flatten(LowParts(registers))
  {
    hide Le;
    if registers != [] {
      var n := |registers| - 1;
      RegisterStreamIsFlat(registers[..n]);
      assert LowParts(registers)[..n] == LowParts(registers[..n]);
      FlattenLast(LowParts(registers));
    }
  }

  lemma {:induction false} RegionStreamIsFlat(order: seq<u64>, regions: RegionMap)
    requires forall g :: g in order ==> g in regions
    ensures RegionStream(Listed(order, regions)) == Flatten(ChunkParts(order, regions))
    decreases |order|
  {
    hide Le;
    if order != [] {
      var n := |order| - 1;
      RegionStreamIsFlat(order[..n], regions);
      assert Listed(order, regions)[..n] == Listed(order[..n], regions);
      assert ChunkParts(order, regions)[..n] == ChunkParts(order[..n], regions);
      FlattenLast(ChunkParts(order, regions));
    }
  }

  /**
   The bytes that are fed, in order: the low half of each register, then for each region by
   increasing address its address, its length and its bytes, all integers in eight bytes.
   */
  lemma HashLayout(registers: seq<RegValue>, regions: RegionMap, order: seq<u64>)
    requires forall i, j :: 0 <= i < j < |order| ==> order[i] < order[j]
    requires forall g :: g in order <==> g in regions
    ensures HashStream(registers, regions) == Flatten(LowParts(registers)) + Flatten(ChunkParts(order, regions))
  {
    SortedIsUnique(Sorted(regions.Keys), order);
    RegisterStreamIsFlat(registers);
    RegionStreamIsFlat(order, regions);
  }

  // ---------------------------------------------------------------------------------------------
  // The register count is part of what makes the form canonical.

  function Zeros64(n: nat): seq<RegValue> {
    seq(n, _ => Reg64(0))
  }

  lemma {:induction false} LeZero(width: nat)
    ensures Le(0, width) == Zeros(width)
  {
    if width > 0 { LeZero(width - 1); }
  }

  lemma {:induction false} RegisterStreamConcat(a: seq<RegValue>, b: seq<RegValue>)
    ensures RegisterStream(a + b) == RegisterStream(a) + RegisterStream(b)
    decreases |b|
  {
    hide Le;
    if b == [] {
      assert a + b == a;
    } else {
      var n := |b| - 1;
      RegisterStreamConcat(a, b[..n]);
      assert (a + b)[..|a| + n] == a + b[..n];
      assert RegisterStream(a + b) == RegisterStream(a + b[..n]) + Le(b[n].low, 8);
    }
  }

  lemma {:induction false} StreamOfZeros(n: nat)
    ensures RegisterStream(Zeros64(n)) == Zeros(8 * n)
  {
    hide Le;
    if n > 0 {
      StreamOfZeros(n - 1);
      LeZero(8);
      assert Zeros64(n)[..n - 1] == Zeros64(n - 1);
      assert RegisterStream(Zeros64(n)) == Zeros(8 * (n - 1)) + Zeros(8);
    }
  }

  lemma StreamOfOne(r: RegValue)
    ensures RegisterStream([r]) == Le(r.low, 8)
  {
    hide Le;
    assert [r][..0] == [];
    assert RegisterStream([]) == [];
  }

  /** The stream of a single region. */
  lemma OneRegion(g: u64, bytes: seq<byte>)
    ensures var m: RegionMap := map[g := bytes];
            RegionStream(Listed(Sorted(m.Keys), m)) == Le(g, 8) + Le(|bytes|, 8) + bytes
  {
    hide Le;
    var m: RegionMap := map[g := bytes];
    SortedIsUnique(Sorted(m.Keys), [g]);
    assert Listed([g], m) == [Region(g, bytes)];
    assert [Region(g, bytes)][..0] == [];
    assert RegionStream([]) == [];
  }

  lemma NoRegions()
    ensures var m: RegionMap := map[]; RegionStream(Listed(Sorted(m.Keys), m)) == []
  {
    var m: RegionMap := map[];
    SortedIsUnique(Sorted(m.Keys), []);
  }

  /** One more zero register, and a region that makes up for it. */
  lemma OneExtraRegister(m: nat)
    ensures HashStream(Zeros64(m), map[0 := Zeros(8)]) == HashStream(Zeros64(m) + [Reg64(0)], map[8 := []])
  {
    hide Le, RegisterStream, RegionStream, Listed;
    OneRegion(0, Zeros(8));
    OneRegion(8, []);
    RegisterStreamConcat(Zeros64(m), [Reg64(0)]);
    StreamOfOne(Reg64(0));
    LeZero(8);
    var zeros := RegisterStream(Zeros64(m));
    assert zeros + (Le(0, 8) + Le(8, 8) + Zeros(8)) == (zeros + Le(0, 8)) + (Le(8, 8) + Le(0, 8) + []);
  }

  /** Any two or more extra registers that spell out a region of zero bytes. */
  function RegionAsRegisters(d: nat): seq<RegValue>
    requires 2 <= d && 8 * (d - 2) < TWO_64
  {
    [Reg64(0)] + [Reg64(8 * (d - 2))] + Zeros64(d - 2)
  }

  lemma MoreExtraRegisters(m: nat, d: nat)
    requires 2 <= d && 8 * (d - 2) < TWO_64
    ensures HashStream(Zeros64(m), map[0 := Zeros(8 * (d - 2))]) ==
            HashStream(Zeros64(m) + RegionAsRegisters(d), map[])
  {
    hide Le, RegisterStream, RegionStream, Listed;
    var len: u64 := 8 * (d - 2);
    OneRegion(0, Zeros(len));
    NoRegions();
    RegisterStreamConcat(Zeros64(m), RegionAsRegisters(d));
    RegisterStreamConcat([Reg64(0)] + [Reg64(len)], Zeros64(d - 2));
    RegisterStreamConcat([Reg64(0)], [Reg64(len)]);
    StreamOfOne(Reg64(0));
    StreamOfOne(Reg64(len));
    StreamOfZeros(d - 2);
    var zeros, chunk := RegisterStream(Zeros64(m)), Le(0, 8) + Le(len, 8) + Zeros(len);
    assert RegisterStream(RegionAsRegisters(d)) == chunk;
    assert zeros + chunk == (zeros + chunk) + [];
  }

  /** Three registers and no region feed the same bytes as no register and one region. */
  lemma RegisterCountMatters()
    ensures HashStream([Reg64(0), Reg64(8), Reg64(0)], map[]) == HashStream([], map[0 := Zeros(8)])
  {
    hide HashStream;
    MoreExtraRegisters(0, 3);
    assert Zeros64(0) == [] && Zeros64(1) == [Reg64(0)];
    assert [] + RegionAsRegisters(3) == [Reg64(0), Reg64(8), Reg64(0)];
  }

  /** No host vector of 16-byte registers is longer. */
  const MAX_REGISTERS: nat := 0x1000_0000_0000_0000

  /** Snapshots with `m` and with `n` registers that feed the hasher the same bytes are alike. */
  ghost predicate Determines(m: nat, n: nat) {
    forall ra, ma, rb, mb ::
      |ra| == m && |rb| == n && Hashable(ma) && Hashable(mb) && HashStream(ra, ma) == HashStream(rb, mb) ==>
        SameLow(ra, rb) && ma == mb
  }

  lemma FewerRegistersCollide(m: nat, n: nat) returns (ra: seq<RegValue>, ma: RegionMap, rb: seq<RegValue>, mb: RegionMap)
    requires m < n <= MAX_REGISTERS
    ensures |ra| == m && |rb| == n && Hashable(ma) && Hashable(mb) && HashStream(ra, ma) == HashStream(rb, mb)
  {
    hide HashStream;
    ra := Zeros64(m);
    if n == m + 1 {
      ma, rb, mb := map[0 := Zeros(8)], Zeros64(m) + [Reg64(0)], map[8 := []];
      OneExtraRegister(m);
    } else {
      var d := n - m;
      ma, rb, mb := map[0 := Zeros(8 * (d - 2))], Zeros64(m) + RegionAsRegisters(d), map[];
      MoreExtraRegisters(m, d);
    }
  }

  /** The form is canonical across two register counts if and only if the counts are equal. */
  lemma RegisterCountDecides(m: nat, n: nat)
    requires m <= MAX_REGISTERS && n <= MAX_REGISTERS
    ensures Determines(m, n) <==> m == n
  {
    hide HashStream;
    if m == n {
      forall ra, ma, rb, mb | |ra| == m && |rb| == n && Hashable(ma) && Hashable(mb)
                              && HashStream(ra, ma) == HashStream(rb, mb)
        ensures SameLow(ra, rb) && ma == mb
      {
        HashStreamIsCanonical(ra, ma, rb, mb);
      }
    } else if m < n {
      var ra, ma, rb, mb := FewerRegistersCollide(m, n);
      assert !SameLow(ra, rb);
    } else {
      var ra, ma, rb, mb := FewerRegistersCollide(n, m);
      assert !SameLow(rb, ra);
    }
  }
}
