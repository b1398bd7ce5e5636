/**
 Binary codecs in bincode's fixed-width layout: little-endian integers, 64-bit lengths, 32-bit
 variant tags. A decoder returns the bytes it did not read.
 */
module Codec {
  import opened Words

  datatype Decoded<+T> = Bad | Good(value: T, rest: seq<byte>)

  /** `valid` holds of the values whose lengths fit their 64-bit prefix. */
  datatype Codec<!T> = Codec(enc: T -> seq<byte>, dec: seq<byte> -> Decoded<T>, valid: T -> bool)

  /** Decoding undoes encoding and leaves what follows. */
  ghost predicate RoundTrips<T(!new)>(c: Codec<T>) {
    forall x, rest :: c.valid(x) ==> c.dec(c.enc(x) + rest) == Good(x, rest)
  }

  /** Nothing else decodes: what was read is the encoding of what was returned. */
  ghost predicate Exact<T(!new)>(c: Codec<T>) {
    forall b :: c.dec(b).Good? ==>
      c.valid(c.dec(b).value) && c.enc(c.dec(b).value) + c.dec(b).rest == b
  }

  ghost predicate Lawful<T(!new)>(c: Codec<T>) {
    RoundTrips(c) && Exact(c)
  }

  lemma UseRoundTrip<T(!new)>(c: Codec<T>, x: T, rest: seq<byte>)
    requires Lawful(c) && c.valid(x)
    ensures c.dec(c.enc(x) + rest) == Good(x, rest)
  {
  }

  lemma UseExact<T(!new)>(c: Codec<T>, b: seq<byte>)
    requires Lawful(c) && c.dec(b).Good?
    ensures c.valid(c.dec(b).value) && c.enc(c.dec(b).value) + c.dec(b).rest == b
  {
  }

  // ---------------------------------------------------------------------------------------------
  // Integers.

  function ReadU8(b: seq<byte>): Decoded<byte> {
    if |b| < 1 then Bad else Good(b[0], b[1..])
  }

  function ReadU32(b: seq<byte>): Decoded<u32> {
    if |b| < 4 then Bad else
    FromLeBound(b[..4]);
    Pow256Values();
    Good(FromLe(b[..4]), b[4..])
  }

  function ReadU64(b: seq<byte>): Decoded<u64> {
    if |b| < 8 then Bad else
    FromLeBound(b[..8]);
    Pow256Values();
    Good(FromLe(b[..8]), b[8..])
  }

  const U8: Codec<byte> := Codec((v: byte) => [v], ReadU8, (_: byte) => true)
  const U32: Codec<u32> := Codec((v: u32) => Le(v, 4), ReadU32, (_: u32) => true)
  const U64: Codec<u64> := Codec((v: u64) => Le(v, 8), ReadU64, (_: u64) => true)

  lemma U8Lawful()
    ensures Lawful(U8)
  {
    forall x: byte, rest: seq<byte> ensures ReadU8([x] + rest) == Good(x, rest) {
      assert ([x] + rest)[1..] == rest;
    }
    forall b: seq<byte> | ReadU8(b).Good? ensures [b[0]] + b[1..] == b {
    }
  }

  lemma ReadOfLe(v: nat, width: nat, rest: seq<byte>)
    requires v < Pow256(width)
    ensures var b := Le(v, width) + rest; |b| >= width && FromLe(b[..width]) == v && b[width..] == rest
  {
    var b := Le(v, width) + rest;
    assert b[..width] == Le(v, width);
    FromLeOfLe(v, width);
  }

  lemma LeOfRead(b: seq<byte>, width: nat)
    requires width <= |b|
    ensures Le(FromLe(b[..width]), width) + b[width..] == b
  {
    LeOfFromLe(b[..width]);
  }

  lemma U32Lawful()
    ensures Lawful(U32)
  {
    hide Le, FromLe, Pow256;
    Pow256Values();
    forall x: u32, rest ensures ReadU32(Le(x, 4) + rest) == Good(x, rest) {
      ReadOfLe(x, 4, rest);
    }
    forall b | ReadU32(b).Good? ensures Le(FromLe(b[..4]), 4) + b[4..] == b {
      LeOfRead(b, 4);
    }
  }

  lemma U64Lawful()
    ensures Lawful(U64)
  {
    hide Le, FromLe, Pow256;
    Pow256Values();
    forall x: u64, rest ensures ReadU64(Le(x, 8) + rest) == Good(x, rest) {
      ReadOfLe(x, 8, rest);
    }
    forall b | ReadU64(b).Good? ensures Le(FromLe(b[..8]), 8) + b[8..] == b {
      LeOfRead(b, 8);
    }
  }

  // ---------------------------------------------------------------------------------------------
  // Products and isomorphic types.

  function Pair<A, B>(a: Codec<A>, b: Codec<B>): Codec<(A, B)> {
    Codec(
      (p: (A, B)) => a.enc(p.0) + b.enc(p.1),
      (s: seq<byte>) =>
        match a.dec(s)
        case Bad => Bad
        case Good(x, rest) =>
          match b.dec(rest)
          case Bad => Bad
          case Good(y, rest') => Good((x, y), rest'),
      (p: (A, B)) => a.valid(p.0) && b.valid(p.1))
  }

  lemma PairLawful<A(!new), B(!new)>(a: Codec<A>, b: Codec<B>)
    requires Lawful(a) && Lawful(b)
    ensures Lawful(Pair(a, b))
  {
    var c := Pair(a, b);
    forall p: (A, B), rest | c.valid(p) ensures c.dec(c.enc(p) + rest) == Good(p, rest) {
      assert c.enc(p) + rest == a.enc(p.0) + (b.enc(p.1) + rest);
    }
    forall s | c.dec(s).Good? ensures c.valid(c.dec(s).value) && c.enc(c.dec(s).value) + c.dec(s).rest == s {
      var x, y := c.dec(s).value.0, c.dec(s).value.1;
      assert c.enc(c.dec(s).value) + c.dec(s).rest == a.enc(x) + (b.enc(y) + c.dec(s).rest);
    }
  }

  function Via<A, B>(c: Codec<A>, to: A -> B, from: B -> A): Codec<B> {
    Codec(
      (x: B) => c.enc(from(x)),
      (s: seq<byte>) =>
        match c.dec(s)
        case Bad => Bad
        case Good(x, rest) => Good(to(x), rest),
      (x: B) => c.valid(from(x)))
  }

  lemma ViaLawful<A(!new), B(!new)>(c: Codec<A>, to: A -> B, from: B -> A)
    requires Lawful(c)
    requires forall x :: to(from(x)) == x
    requires forall y :: from(to(y)) == y
    ensures Lawful(Via(c, to, from))
  {
    var d := Via(c, to, from);
    forall x: B, rest | d.valid(x) ensures d.dec(d.enc(x) + rest) == Good(x, rest) {
      assert c.dec(c.enc(from(x)) + rest) == Good(from(x), rest);
    }
  }

  // ---------------------------------------------------------------------------------------------
  // Sequences.

  function EncAll<T>(c: Codec<T>, xs: seq<T>): seq<byte> {
    if xs == [] then [] else c.enc(xs[0]) + EncAll(c, xs[1..])
  }

  function DecAll<T>(c: Codec<T>, n: nat, s: seq<byte>): Decoded<seq<T>>
    decreases n
  {
    if n == 0 then Good([], s)
    else
      match c.dec(s)
      case Bad => Bad
      case Good(x, rest) =>
        match DecAll(c, n - 1, rest)
        case Bad => Bad
        case Good(xs, rest') => Good([x] + xs, rest')
  }

  predicate AllValid<T>(c: Codec<T>, xs: seq<T>) {
    forall i :: 0 <= i < |xs| ==> c.valid(xs[i])
  }

  function Vec<T>(c: Codec<T>): Codec<seq<T>> {
    Codec(
      (xs: seq<T>) => Le(|xs|, 8) + EncAll(c, xs),
      (s: seq<byte>) =>
        match ReadU64(s)
        case Bad => Bad
        case Good(n, rest) => DecAll(c, n, rest),
      (xs: seq<T>) => |xs| < TWO_64 && AllValid(c, xs))
  }

  lemma {:induction false} DecAllOfEncAll<T(!new)>(c: Codec<T>, xs: seq<T>, rest: seq<byte>)
    requires Lawful(c) && AllValid(c, xs)
    ensures DecAll(c, |xs|, EncAll(c, xs) + rest) == Good(xs, rest)
  {
    if xs == [] {
      assert EncAll(c, xs) + rest == rest;
    } else {
      var s := EncAll(c, xs[1..]) + rest;
      assert EncAll(c, xs) + rest == c.enc(xs[0]) + s;
      assert c.dec(c.enc(xs[0]) + s) == Good(xs[0], s);
      DecAllOfEncAll(c, xs[1..], rest);
      assert [xs[0]] + xs[1..] == xs;
    }
  }

  lemma {:induction false} EncAllOfDecAll<T(!new)>(c: Codec<T>, n: nat, s: seq<byte>)
    requires Lawful(c) && DecAll(c, n, s).Good?
    ensures var d := DecAll(c, n, s); |d.value| == n && AllValid(c, d.value) && EncAll(c, d.value) + d.rest == s
    decreases n
  {
    if n == 0 {
      assert EncAll(c, []) + s == s;
    } else {
      var first := c.dec(s);
      EncAllOfDecAll(c, n - 1, first.rest);
      var d, tail := DecAll(c, n, s), DecAll(c, n - 1, first.rest);
      assert d.value[1..] == tail.value;
      assert EncAll(c, d.value) + d.rest == c.enc(first.value) + (EncAll(c, tail.value) + d.rest);
    }
  }

  lemma VecRoundTrip<T(!new)>(c: Codec<T>, xs: seq<T>, rest: seq<byte>)
    requires Lawful(c) && |xs| < TWO_64 && AllValid(c, xs)
    ensures Vec(c).dec(Vec(c).enc(xs) + rest) == Good(xs, rest)
  {
    hide Le, EncAll, DecAll, ReadU64, FromLe;
    U64Lawful();
    var n: u64 := |xs|;
    assert Vec(c).enc(xs) + rest == U64.enc(n) + (EncAll(c, xs) + rest);
    assert U64.dec(U64.enc(n) + (EncAll(c, xs) + rest)) == Good(n, EncAll(c, xs) + rest);
    DecAllOfEncAll(c, xs, rest);
  }

  lemma VecExact<T(!new)>(c: Codec<T>, s: seq<byte>)
    requires Lawful(c) && Vec(c).dec(s).Good?
    ensures Vec(c).valid(Vec(c).dec(s).value)
    ensures Vec(c).enc(Vec(c).dec(s).value) + Vec(c).dec(s).rest == s
  {
    hide Le, EncAll, DecAll, ReadU64, FromLe;
    U64Lawful();
    var head := U64.dec(s);
    assert ReadU64(s) == head;
    assert U64.enc(head.value) + head.rest == s;
    EncAllOfDecAll(c, head.value, head.rest);
    var d := Vec(c).dec(s);
    assert Vec(c).enc(d.value) + d.rest == Le(head.value, 8) + (EncAll(c, d.value) + d.rest);
  }

  lemma VecLawful<T(!new)>(c: Codec<T>)
    requires Lawful(c)
    ensures Lawful(Vec(c))
  {
    hide Le, EncAll, DecAll, ReadU64;
    var v := Vec(c);
    U64Lawful();
    forall xs: seq<T>, rest | v.valid(xs) ensures v.dec(v.enc(xs) + rest) == Good(xs, rest) {
      VecRoundTrip(c, xs, rest);
    }
    forall s | v.dec(s).Good? ensures v.valid(v.dec(s).value) && v.enc(v.dec(s).value) + v.dec(s).rest == s {
      VecExact(c, s);
    }
  }

  // ---------------------------------------------------------------------------------------------
  // Buffers: written as one run of raw bytes, read back element by element.

  const Buffer: Codec<seq<byte>> :=
    Codec((s: seq<byte>) => Le(|s|, 8) + s, Vec(U8).dec, (s: seq<byte>) => |s| < TWO_64)

  lemma {:induction false} RawBytesAreElements(s: seq<byte>)
    ensures EncAll(U8, s) == s
  {
    if s != [] { RawBytesAreElements(s[1..]); }
  }

  lemma BufferLawful()
    ensures Lawful(Buffer)
  {
    hide Le, EncAll, DecAll, ReadU64;
    U8Lawful();
    VecLawful(U8);
    forall s: seq<byte> ensures Buffer.enc(s) == Vec(U8).enc(s) && Buffer.valid(s) == Vec(U8).valid(s) {
      RawBytesAreElements(s);
    }
    forall s: seq<byte>, rest | Buffer.valid(s) ensures Buffer.dec(Buffer.enc(s) + rest) == Good(s, rest) {
      assert Vec(U8).dec(Vec(U8).enc(s) + rest) == Good(s, rest);
    }
    forall b | Buffer.dec(b).Good?
      ensures Buffer.valid(Buffer.dec(b).value) && Buffer.enc(Buffer.dec(b).value) + Buffer.dec(b).rest == b
    {
      assert Vec(U8).dec(b).Good?;
    }
  }
}
