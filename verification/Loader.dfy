/** Copying the sections of an executable into a zeroed, page-rounded guest image. */
module Loader {
  import opened Words

  datatype Section = Section(virtualAddress: u32, rawPointer: u32, rawSize: u32)

  /** `(x + 4095) & !4095`. */
  function PageRound(x: nat): nat {
    (x + 4095) / 4096 * 4096
  }

  /** The rounded size is the least multiple of 4096 that is not below the original. */
  lemma PageRoundIsLeast(x: nat, y: nat)
    requires y % 4096 == 0 && x <= y
    ensures x <= PageRound(x) <= y && PageRound(x) % 4096 == 0
    ensures PageRound(PageRound(x)) == PageRound(x)
  {
  }

  /** What the copy's safety comment takes from the parser: source and target ranges exist. */
  predicate InBounds(s: Section, raw: seq<byte>, size: nat) {
    s.rawPointer > 0 && s.rawSize > 0 ==>
      s.rawPointer + s.rawSize <= |raw| && s.virtualAddress + s.rawSize <= size
  }

  ghost predicate AllInBounds(sections: seq<Section>, raw: seq<byte>, size: nat) {
    forall i :: 0 <= i < |sections| ==> InBounds(sections[i], raw, size)
  }

  /** Sections without raw data hold nothing. */
  predicate Holds(s: Section, a: nat) {
    s.rawPointer > 0 && s.virtualAddress <= a < s.virtualAddress + s.rawSize
  }

  function Paste(image: seq<byte>, s: Section, raw: seq<byte>): (r: seq<byte>)
    requires InBounds(s, raw, |image|)
    ensures |r| == |image|
  {
    if s.rawPointer == 0 || s.rawSize == 0 then image
    else image[..s.virtualAddress] + raw[s.rawPointer..s.rawPointer + s.rawSize]
         + image[s.virtualAddress + s.rawSize..]
  }

  /** The image after all sections, in file order; a later section overwrites an earlier one. */
  ghost function Image(sections: seq<Section>, raw: seq<byte>, size: nat): (r: seq<byte>)
    requires AllInBounds(sections, raw, size)
    ensures |r| == size
    decreases |sections|
  {
    if sections == [] then Zeros(size)
    else Paste(Image(sections[..|sections| - 1], raw, size), sections[|sections| - 1], raw)
  }

  /** The byte of the file that a section puts at an address. */
  function SourceByte(s: Section, raw: seq<byte>, a: nat): byte
    requires Holds(s, a) && s.rawPointer + s.rawSize <= |raw|
  {
    raw[s.rawPointer + (a - s.virtualAddress)]
  }

  /** The last section of the table that holds an address, or -1. */
  function LastHolder(sections: seq<Section>, a: nat): (k: int)
    ensures -1 <= k < |sections|
    ensures k >= 0 ==> Holds(sections[k], a)
    ensures forall j :: k < j < |sections| ==> !Holds(sections[j], a)
  {
    if sections == [] then -1
    else if Holds(sections[|sections| - 1], a) then |sections| - 1
    else LastHolder(sections[..|sections| - 1], a)
  }

  lemma PasteAt(image: seq<byte>, s: Section, raw: seq<byte>, a: nat)
    requires InBounds(s, raw, |image|) && a < |image|
    ensures Paste(image, s, raw)[a] == if Holds(s, a) then SourceByte(s, raw, a) else image[a]
  {
  }

  /** Each byte comes from the last section that holds it, or is zero. */
  lemma {:induction false} ImageAt(sections: seq<Section>, raw: seq<byte>, size: nat, a: nat)
    requires AllInBounds(sections, raw, size) && a < size
    ensures var k := LastHolder(sections, a);
            && (k >= 0 ==> InBounds(sections[k], raw, size))
            && Image(sections, raw, size)[a] == if k < 0 then 0 else SourceByte(sections[k], raw, a)
    decreases |sections|
  {
    hide Paste;
    if sections != [] {
      var n := |sections| - 1;
      assert InBounds(sections[n], raw, size);
      ImageAt(sections[..n], raw, size, a);
      PasteAt(Image(sections[..n], raw, size), sections[n], raw, a);
    }
  }

  /** The same in terms of the section table's own fields. */
  lemma ImageByFields(sections: seq<Section>, raw: seq<byte>, size: nat)
    requires AllInBounds(sections, raw, size)
    ensures forall i, a: nat ::
      && 0 <= i < |sections| && sections[i].rawPointer > 0
      && sections[i].virtualAddress <= a < sections[i].virtualAddress + sections[i].rawSize
      && (forall j :: i < j < |sections| && sections[j].rawPointer > 0 ==>
           !(sections[j].virtualAddress <= a < sections[j].virtualAddress + sections[j].rawSize)) ==>
        && a < size && sections[i].rawPointer + (a - sections[i].virtualAddress) < |raw|
        && Image(sections, raw, size)[a] == raw[sections[i].rawPointer + (a - sections[i].virtualAddress)]
    ensures forall a: nat ::
      && a < size
      && (forall i :: 0 <= i < |sections| && sections[i].rawPointer > 0 ==>
           !(sections[i].virtualAddress <= a < sections[i].virtualAddress + sections[i].rawSize)) ==>
        Image(sections, raw, size)[a] == 0
  {
    hide Image, LastHolder;
    forall a: nat | a < size
      ensures var k := LastHolder(sections, a);
              && (k >= 0 ==> InBounds(sections[k], raw, size))
              && Image(sections, raw, size)[a] == if k < 0 then 0 else SourceByte(sections[k], raw, a)
    {
      ImageAt(sections, raw, size, a);
    }
    forall i, a: nat |
      && 0 <= i < |sections| && Holds(sections[i], a)
      && (forall j :: i < j < |sections| ==> !Holds(sections[j], a))
      ensures a < size && LastHolder(sections, a) == i
    {
      assert InBounds(sections[i], raw, size);
    }
  }

  /** Copy one section to its place, unless it has no raw data. */
  method CopySection(host: array<byte>, s: Section, raw: seq<byte>)
    requires InBounds(s, raw, host.Length)
    modifies host
    ensures host[..] == Paste(old(host[..]), s, raw)
  {
    if s.rawPointer > 0 && s.rawSize > 0 {
      forall i | 0 <= i < s.rawSize {
        host[s.virtualAddress + i] := raw[s.rawPointer + i];
      }
    }
  }

  lemma ImageLast(sections: seq<Section>, raw: seq<byte>, size: nat, k: nat)
    requires AllInBounds(sections, raw, size) && k < |sections|
    ensures AllInBounds(sections[..k], raw, size) && AllInBounds(sections[..k + 1], raw, size)
    ensures InBounds(sections[k], raw, size)
    ensures Image(sections[..k + 1], raw, size) == Paste(Image(sections[..k], raw, size), sections[k], raw)
  {
    assert sections[..k + 1][..k] == sections[..k];
  }

  method CopySections(size: nat, sections: seq<Section>, raw: seq<byte>) returns (host: array<byte>)
    requires AllInBounds(sections, raw, size)
    ensures fresh(host) && host.Length == size && host[..] == Image(sections, raw, size)
  {
    hide Paste;
    host := new byte[size](_ => 0);
    assert host[..] == Zeros(size);
    assert host[..] == Image([], raw, size);
    hide Image;
    for k := 0 to |sections|
      invariant AllInBounds(sections[..k], raw, size)
      invariant host[..] == Image(sections[..k], raw, size)
    {
      ImageLast(sections, raw, size, k);
      CopySection(host, sections[k], raw);
    }
    assert sections[..|sections|] == sections;
  }

  /** The image in host memory: each byte comes from the last section that has it, or is zero. */
  method MapIntoMemory(sizeOfImage: u32, sections: seq<Section>, raw: seq<byte>) returns (host: array<byte>)
    requires sizeOfImage > 0 && AllInBounds(sections, raw, PageRound(sizeOfImage))
    ensures fresh(host) && host.Length == PageRound(sizeOfImage)
    ensures host.Length % 4096 == 0 && sizeOfImage <= host.Length < sizeOfImage + 4096
    ensures host[..] == Image(sections, raw, PageRound(sizeOfImage))
    ensures forall i, a: nat ::
      && 0 <= i < |sections| && sections[i].rawPointer > 0
      && sections[i].virtualAddress <= a < sections[i].virtualAddress + sections[i].rawSize
      && (forall j :: i < j < |sections| && sections[j].rawPointer > 0 ==>
           !(sections[j].virtualAddress <= a < sections[j].virtualAddress + sections[j].rawSize)) ==>
        && a < host.Length && sections[i].rawPointer + (a - sections[i].virtualAddress) < |raw|
        && host[a] == raw[sections[i].rawPointer + (a - sections[i].virtualAddress)]
    ensures forall a: nat ::
      && a < host.Length
      && (forall i :: 0 <= i < |sections| && sections[i].rawPointer > 0 ==>
           !(sections[i].virtualAddress <= a < sections[i].virtualAddress + sections[i].rawSize)) ==>
        host[a] == 0
  {
    var size := PageRound(sizeOfImage);
    host := CopySections(size, sections, raw);
    ImageByFields(sections, raw, size);
    hide Image;
    forall a: nat | a < host.Length ensures host[a] == Image(sections, raw, size)[a] {
    }
  }

  /** Any two sections that hold an address bring the same byte of the file there. */
  ghost predicate Agree(sections: seq<Section>, raw: seq<byte>, size: nat)
    requires AllInBounds(sections, raw, size)
  {
    forall i, j, a: nat ::
      0 <= i < |sections| && 0 <= j < |sections| && Holds(sections[i], a) && Holds(sections[j], a)
      && InBounds(sections[i], raw, size) && InBounds(sections[j], raw, size) ==>
        SourceByte(sections[i], raw, a) == SourceByte(sections[j], raw, a)
  }

  /** If sections agree, as those that do not overlap do, every section byte is its file byte. */
  lemma ImageHoldsSections(sections: seq<Section>, raw: seq<byte>, size: nat, i: nat, a: nat)
    requires AllInBounds(sections, raw, size) && Agree(sections, raw, size)
    requires i < |sections| && Holds(sections[i], a)
    ensures InBounds(sections[i], raw, size) && a < size
    ensures Image(sections, raw, size)[a] == SourceByte(sections[i], raw, a)
  {
    hide Image, LastHolder;
    assert InBounds(sections[i], raw, size);
    ImageAt(sections, raw, size, a);
    assert LastHolder(sections, a) >= i;
  }

  lemma SameSectionsInBounds(a: seq<Section>, b: seq<Section>, raw: seq<byte>, size: nat)
    requires AllInBounds(a, raw, size) && forall s :: s in b ==> s in a
    ensures AllInBounds(b, raw, size)
  {
    forall i | 0 <= i < |b| ensures InBounds(b[i], raw, size) {
      assert b[i] in a;
    }
  }

  /** For sections that agree the image does not depend on the order of the section table. */
  lemma ImageIgnoresOrder(a: seq<Section>, b: seq<Section>, raw: seq<byte>, size: nat)
    requires AllInBounds(a, raw, size) && AllInBounds(b, raw, size) && Agree(a, raw, size)
    requires forall s :: s in a <==> s in b
    ensures Image(a, raw, size) == Image(b, raw, size)
  {
    hide Image, LastHolder;
    forall x: nat | x < size ensures Image(a, raw, size)[x] == Image(b, raw, size)[x] {
      ImageAt(a, raw, size, x);
      ImageAt(b, raw, size, x);
      var j, k := LastHolder(a, x), LastHolder(b, x);
      if j >= 0 {
        assert a[j] in b;
        var i :| 0 <= i < |b| && b[i] == a[j];
        assert k >= i;
      }
      if k >= 0 {
        assert b[k] in a;
        var i :| 0 <= i < |a| && a[i] == b[k];
        ImageHoldsSections(a, raw, size, i, x);
      }
    }
  }

  /** The section table with entry `i` moved to the end. */
  function MovedLast(sections: seq<Section>, i: nat): seq<Section>
    requires i < |sections|
  {
    sections[..i] + sections[i + 1..] + [sections[i]]
  }

  lemma MovedLastPermutes(sections: seq<Section>, i: nat)
    requires i < |sections|
    ensures multiset(MovedLast(sections, i)) == multiset(sections)
  {
    assert sections == sections[..i] + [sections[i]] + sections[i + 1..];
  }

  lemma PermutationInBounds(a: seq<Section>, b: seq<Section>, raw: seq<byte>, size: nat)
    requires AllInBounds(a, raw, size) && multiset(a) == multiset(b)
    ensures AllInBounds(b, raw, size) && forall s :: s in a <==> s in b
  {
    forall s ensures s in a <==> s in b {
      assert s in a <==> s in multiset(a);
      assert s in b <==> s in multiset(b);
    }
    SameSectionsInBounds(a, b, raw, size);
  }

  lemma MovedLastWins(sections: seq<Section>, raw: seq<byte>, size: nat, i: nat, a: nat)
    requires AllInBounds(sections, raw, size) && i < |sections| && Holds(sections[i], a)
    ensures var b := MovedLast(sections, i);
            && AllInBounds(b, raw, size) && InBounds(sections[i], raw, size) && a < size
            && Image(b, raw, size)[a] == SourceByte(sections[i], raw, a)
  {
    hide Image;
    var b := MovedLast(sections, i);
    assert InBounds(sections[i], raw, size);
    MovedLastPermutes(sections, i);
    PermutationInBounds(sections, b, raw, size);
    ImageAt(b, raw, size, a);
    assert b[|b| - 1] == sections[i];
    assert LastHolder(b, a) == |b| - 1;
  }

  /**
   The exact condition: every permutation of the section table gives the same image if and only if
   any two sections that hold an address bring the same byte of the file there.
   */
  lemma OrderIrrelevantIff(sections: seq<Section>, raw: seq<byte>, size: nat)
    requires AllInBounds(sections, raw, size)
    ensures Agree(sections, raw, size) <==>
            forall b: seq<Section> :: multiset(b) == multiset(sections) ==>
              AllInBounds(b, raw, size) && Image(b, raw, size) == Image(sections, raw, size)
  {
    hide Image;
    if Agree(sections, raw, size) {
      forall b: seq<Section> | multiset(b) == multiset(sections)
        ensures AllInBounds(b, raw, size) && Image(b, raw, size) == Image(sections, raw, size)
      {
        PermutationInBounds(sections, b, raw, size);
        ImageIgnoresOrder(sections, b, raw, size);
      }
    } else {
      var i, j, a: nat :|
        0 <= i < |sections| && 0 <= j < |sections| && Holds(sections[i], a) && Holds(sections[j], a)
        && InBounds(sections[i], raw, size) && InBounds(sections[j], raw, size)
        && SourceByte(sections[i], raw, a) != SourceByte(sections[j], raw, a);
      MovedLastPermutes(sections, i);
      MovedLastPermutes(sections, j);
      MovedLastWins(sections, raw, size, i, a);
      MovedLastWins(sections, raw, size, j, a);
    }
  }

  /** For one: two overlapping sections of one byte each, of which the later one wins. */
  lemma OverlapDependsOnOrder()
    ensures var raw: seq<byte> := [0, 1, 2];
            var s, t := Section(0, 1, 1), Section(0, 2, 1);
            && AllInBounds([s, t], raw, 4096) && AllInBounds([t, s], raw, 4096)
            && Image([s, t], raw, 4096)[0] == 2 && Image([t, s], raw, 4096)[0] == 1
  {
    hide Image;
    var raw: seq<byte> := [0, 1, 2];
    var s, t := Section(0, 1, 1), Section(0, 2, 1);
    ImageAt([s, t], raw, 4096, 0);
    ImageAt([t, s], raw, 4096, 0);
    assert Holds([s, t][1], 0) && Holds([t, s][1], 0);
  }

  /** No two sections hold the same address. */
  ghost predicate NoOverlap(sections: seq<Section>) {
    forall i, j, a: nat :: 0 <= i < j < |sections| ==> !(Holds(sections[i], a) && Holds(sections[j], a))
  }

  lemma NoOverlapAgrees(sections: seq<Section>, raw: seq<byte>, size: nat)
    requires AllInBounds(sections, raw, size) && NoOverlap(sections)
    ensures Agree(sections, raw, size)
  {
  }

  /**
   What the copy loop's own comment promises: if sections do not overlap, the image holds every
   section whole and zeros elsewhere, in whatever order the table lists them.
   */
  lemma SeparateSectionsLoad(sections: seq<Section>, raw: seq<byte>, size: nat, b: seq<Section>)
    requires AllInBounds(sections, raw, size) && multiset(b) == multiset(sections)
    requires forall i, j ::
      && 0 <= i < j < |sections| && sections[i].rawPointer > 0 && sections[j].rawPointer > 0
      && sections[i].rawSize > 0 && sections[j].rawSize > 0 ==>
        || sections[i].virtualAddress + sections[i].rawSize <= sections[j].virtualAddress
        || sections[j].virtualAddress + sections[j].rawSize <= sections[i].virtualAddress
    ensures AllInBounds(b, raw, size)
    ensures forall i, a: nat ::
      && 0 <= i < |sections| && sections[i].rawPointer > 0
      && sections[i].virtualAddress <= a < sections[i].virtualAddress + sections[i].rawSize ==>
        && a < size && sections[i].rawPointer + (a - sections[i].virtualAddress) < |raw|
        && Image(b, raw, size)[a] == raw[sections[i].rawPointer + (a - sections[i].virtualAddress)]
    ensures forall a: nat ::
      && a < size
      && (forall i :: 0 <= i < |sections| && sections[i].rawPointer > 0 ==>
           !(sections[i].virtualAddress <= a < sections[i].virtualAddress + sections[i].rawSize)) ==>
        Image(b, raw, size)[a] == 0
  {
    hide Image, Agree;
    assert NoOverlap(sections);
    NoOverlapAgrees(sections, raw, size);
    OrderIrrelevantIff(sections, raw, size);
    ImageByFields(sections, raw, size);
  }
}
