/** Fixed-width machine words, their overflow behaviour and their little-endian bytes. */
module Words {

  datatype Option<+T> = None | Some(value: T)

  const TWO_32: int := 0x1_0000_0000
  const TWO_64: int := 0x1_0000_0000_0000_0000

  type byte = x: int | 0 <= x < 0x100
  type u32 = x: int | 0 <= x < 0x1_0000_0000
  type u64 = x: int | 0 <= x < 0x1_0000_0000_0000_0000

  /** Truncation to 32 and to 64 bits. */
  function Low32(x: nat): u32 { x % 0x1_0000_0000 }
  function Low64(x: nat): u64 { x % 0x1_0000_0000_0000_0000 }

  /** The Cargo profile: a `Debug` build panics on integer overflow, a `Release` build wraps. */
  datatype Build = Debug | Release

  /** The `+=` operator on u64. `None` is the overflow panic of a debug build. */
  function AddU64(build: Build, a: u64, b: u64): Option<u64> {
    if a + b < TWO_64 then Some(a + b)
    else if build.Debug? then None
    else Some(a + b - TWO_64)
  }

  function Zeros(n: nat): (s: seq<byte>)
    ensures |s| == n
  {
    seq(n, _ => 0)
  }

  function Pow256(width: nat): (r: nat)
    ensures r > 0
  {
    if width == 0 then 1 else 256 * Pow256(width - 1)
  }

  /** The low `width` bytes of `v`, least significant first. */
  function Le(v: nat, width: nat): (s: seq<byte>)
    ensures |s| == width
    decreases width
  {
    if width == 0 then [] else [v % 256] + Le(v / 256, width - 1)
  }

  function Flatten(parts: seq<seq<byte>>): seq<byte> {
    if parts == [] then [] else parts[0] + Flatten(parts[1..])
  }

  /** Part `i` of a concatenation starts where the parts before it end. */
  lemma {:induction false} PartAt(parts: seq<seq<byte>>, i: nat)
    requires i < |parts|
    ensures Flatten(parts) == Flatten(parts[..i]) + parts[i] + Flatten(parts[i + 1..])
  {
    if i > 0 {
      PartAt(parts[1..], i - 1);
      assert parts[1..][..i - 1] == parts[..i][1..];
      assert parts[1..][i..] == parts[i + 1..];
    }
  }

  lemma FlattenLast(parts: seq<seq<byte>>)
    requires parts != []
    ensures Flatten(parts) == Flatten(parts[..|parts| - 1]) + parts[|parts| - 1]
  {
    PartAt(parts, |parts| - 1);
  }

  lemma {:induction false} FlatLength(parts: seq<seq<byte>>, width: nat)
    requires forall i :: 0 <= i < |parts| ==> |parts[i]| == width
    ensures |Flatten(parts)| == width * |parts|
  {
    if parts != [] { FlatLength(parts[1..], width); }
  }

  lemma Middle(a: seq<byte>, b: seq<byte>, c: seq<byte>)
    ensures (a + b + c)[|a|..|a| + |b|] == b
  {
  }

  function FromLe(s: seq<byte>): nat {
    if s == [] then 0 else s[0] + 256 * FromLe(s[1..])
  }

  lemma {:induction false} FromLeBound(s: seq<byte>)
    ensures FromLe(s) < Pow256(|s|)
  {
    if s != [] { FromLeBound(s[1..]); }
  }

  lemma {:induction false} FromLeOfLe(v: nat, width: nat)
    requires v < Pow256(width)
    ensures FromLe(Le(v, width)) == v
    decreases width
  {
    if width > 0 {
      FromLeOfLe(v / 256, width - 1);
      assert Le(v, width)[1..] == Le(v / 256, width - 1);
    }
  }

  lemma MulGrows(d: int, t: int)
    requires d > 0
    ensures t >= 1 ==> d * t >= d
    ensures t <= -1 ==> d * t <= -d
  {
  }

  /** Quotient and remainder are determined by any decomposition with a small remainder. */
  lemma ModUnique(x: int, d: int, k: int, r: int)
    requires d > 0 && 0 <= r < d && x == d * k + r
    ensures x % d == r && x / d == k
  {
    var q, m := x / d, x % d;
    assert x == d * q + m && 0 <= m < d;
    assert d * (k - q) == m - r;
    MulGrows(d, k - q);
  }

  lemma {:induction false} LeOfFromLe(s: seq<byte>)
    ensures Le(FromLe(s), |s|) == s
  {
    if s != [] {
      LeOfFromLe(s[1..]);
      ModUnique(FromLe(s), 256, FromLe(s[1..]), s[0]);
    }
  }

  lemma Pow256Values()
    ensures Pow256(4) == TWO_32 && Pow256(8) == TWO_64
  {
    assert Pow256(1) == 256;
    assert Pow256(2) == 0x1_0000;
    assert Pow256(3) == 0x100_0000;
    assert Pow256(4) == TWO_32;
    assert Pow256(5) == 0x100_0000_0000;
    assert Pow256(6) == 0x1_0000_0000_0000;
    assert Pow256(7) == 0x100_0000_0000_0000;
  }

  lemma DivTwice(v: nat, p: nat)
    requires p > 0
    ensures v / 256 / p == v / (256 * p)
  {
    var q, r := v / 256, v % 256;
    var k, t := q / p, q % p;
    assert v == (256 * p) * k + (256 * t + r) by {
      assert q == p * k + t;
      assert v == 256 * q + r;
    }
    ModUnique(v, 256 * p, k, 256 * t + r);
  }

  /** Byte `i` has weight 256 to the power `i`. */
  lemma {:induction false} LeAt(v: nat, width: nat, i: nat)
    requires i < width
    ensures Le(v, width)[i] == v / Pow256(i) % 256
  {
    if i > 0 {
      LeAt(v / 256, width - 1, i - 1);
      DivTwice(v, Pow256(i - 1));
    }
  }
}
