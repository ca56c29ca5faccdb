/** The mapping from virtual addresses to file offsets of a loaded image. The
    passes are proved for every such mapping; `PeMap` is the one a parsed PE
    gives. */
module Image {
  import opened Words

  type Layout = u64 -> Option<nat>

  /** The `n` bytes from `va` on lie at consecutive file offsets. */
  ghost predicate Linear(m: Layout, va: u64, n: nat) {
    && m(va).Some?
    && forall k | 0 <= k < n :: m(Add64(va, k)) == Some(m(va).value + k)
  }

  datatype Section = Section(rva: u32, virtualSize: u32, rawOffset: u32, rawSize: u32) {
    /** The end of the memory extent, a 32-bit sum that may wrap. */
    function End(): u32 {
      var sum := rva + (if virtualSize != 0 then virtualSize else rawSize);
      if sum >= TWO32 then sum - TWO32 else sum
    }

    predicate Contains(r: u32) {
      rva <= r < End()
    }
  }

  datatype PeMap = PeMap(ready: bool, base: u64, sections: seq<Section>) {
    /** Index of the first section whose memory extent holds `r`, or the
        number of sections when none does. */
    function SectionOf(r: u32, from: nat := 0): (i: nat)
      requires from <= |sections|
      ensures from <= i <= |sections|
      ensures forall k | from <= k < i :: !sections[k].Contains(r)
      ensures i < |sections| ==> sections[i].Contains(r)
      decreases |sections| - from
    {
      if from == |sections| then from
      else if sections[from].Contains(r) then from
      else SectionOf(r, from + 1)
    }

    /** A section's uninitialised tail has no bytes in the file; the first
        0x400 bytes that no section backs are the headers. */
    function RvaToOffset(r: u32): Option<nat> {
      var i := SectionOf(r);
      if i < |sections| && r - sections[i].rva < sections[i].rawSize then
        Some(sections[i].rawOffset + (r - sections[i].rva))
      else if r < 0x400 then
        Some(r)
      else
        None
    }

    function OffsetOf(va: u64): Option<nat> {
      if !ready || va < base || va - base > 0xFFFF_FFFF then None
      else RvaToOffset(va - base)
    }

    function Layout(): Layout {
      (va: u64) => OffsetOf(va)
    }

    /** The first section whose memory holds `r`, its end being a 32-bit sum. */
    ghost predicate FirstHolds(i: nat, r: u32) {
      && i < |sections| && Holds(sections[i], r)
      && forall j | 0 <= j < i :: !Holds(sections[j], r)
    }

    ghost predicate Holds(s: Section, r: u32) {
      var length := if s.virtualSize == 0 then s.rawSize else s.virtualSize;
      s.rva <= r && r < (s.rva + length) % 0x1_0000_0000
    }

    /** Where section `i` puts the byte, if it is the first that holds `r`. */
    ghost predicate Backs(i: nat, r: u32, off: nat) {
      && FirstHolds(i, r) && r - sections[i].rva < sections[i].rawSize
      && off == sections[i].rawOffset + (r - sections[i].rva)
    }

    /** Main result: an address maps into the first section that holds it, if it
        lies before the end of that section's file bytes; the first 0x400 bytes
        that this leaves out map to themselves, and nothing else maps. */
    lemma OffsetIff(va: u64, off: nat)
      ensures OffsetOf(va) == Some(off) <==>
              && ready && base <= va && va - base < 0x1_0000_0000
              && var r: u32 := va - base;
                 || (exists i: nat :: Backs(i, r, off))
                 || (r < 0x400 && off == r && forall i: nat, o: nat :: !Backs(i, r, o))
    {
      if ready && base <= va && va - base < TWO32 {
        var r: u32 := va - base;
        var k := SectionOf(r);
        forall i | 0 <= i < |sections| ensures sections[i].Contains(r) <==> Holds(sections[i], r) {
        }
        forall i: nat ensures FirstHolds(i, r) <==> i == k && k < |sections| {
        }
        if k < |sections| && r - sections[k].rva < sections[k].rawSize {
          assert Backs(k, r, sections[k].rawOffset + (r - sections[k].rva));
        }
      }
    }

    lemma OffsetInSection(i: nat, va: u64)
      requires ready && base <= va && va - base < TWO32
      requires i < |sections| && sections[i].Contains(va - base)
      requires va - base - sections[i].rva < sections[i].rawSize
      requires forall j | 0 <= j < i :: !sections[j].Contains(va - base)
      ensures OffsetOf(va) == Some(sections[i].rawOffset + (va - base - sections[i].rva))
    {
      assert SectionOf(va - base) == i;
    }

    /** No section before the `i`-th holds any of the `n` addresses from `r`. */
    ghost predicate Clear(i: nat, r: u32, n: nat)
      requires i <= |sections|
    {
      forall j, q: u32 | 0 <= j < i && r <= q < r + n :: !sections[j].Contains(q)
    }

    lemma ContainsBelow(i: nat, r: u32, hi: u32)
      requires i < |sections| && sections[i].Contains(hi) && sections[i].rva <= r <= hi
      ensures sections[i].Contains(r)
    {
    }

    /** The `n` addresses from `va` on lie in the file-backed part of section
        `i`, and no earlier section overlaps them. */
    ghost predicate InSection(i: nat, va: u64, n: nat) {
      && ready && i < |sections| && n > 0
      && base <= va && va + n <= TWO64 && va - base + n <= TWO32
      && sections[i].rva <= va - base
      && va - base + n <= sections[i].rva + sections[i].rawSize
      && sections[i].Contains(va - base + n - 1)
      && Clear(i, va - base, n)
    }

    lemma InSectionAt(i: nat, va: u64, n: nat, k: nat)
      requires InSection(i, va, n) && k < n
      ensures OffsetOf(Add64(va, k)) == Some(sections[i].rawOffset + (va + k - base - sections[i].rva))
    {
      Add64Small(va, k);
      ContainsBelow(i, va - base + k, va - base + n - 1);
      OffsetInSection(i, va + k);
    }

    /** A function inside one section's file-backed part is linear. */
    lemma OneSectionIsLinear(i: nat, va: u64, n: nat)
      requires InSection(i, va, n)
      ensures Linear(Layout(), va, n)
      ensures OffsetOf(va).value == sections[i].rawOffset + (va - base - sections[i].rva)
    {
      hide PeMap.OffsetOf, Add64;
      InSectionAt(i, va, n, 0);
      Add64Small(va, 0);
      forall k: nat | 0 <= k < n
        ensures OffsetOf(Add64(va, k)) == Some(OffsetOf(va).value + k)
      {
        InSectionAt(i, va, n, k);
      }
    }
  }
}
