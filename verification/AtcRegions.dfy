/** Cached translations: power-of-two regions, first-match lookup, and invalidation of a range. */
module AtcRegions {
  import Arith
  import opened Basics
  import opened Bits

  datatype Attr = AttrRead | AttrWrite | AttrExec

  /** `SZ_4K`; remainders by it are written with the literal. */
  const PAGE: U64 := 4096

  datatype Region = Region(virt: U64, phys: U64, length: U64, attrs: set<Attr>) {
    predicate Contains(addr: U64) {
      addr >= virt && addr < Add64(virt, length)
    }

    function VirtToPhys(addr: U64): nat {
      Or(phys, And(addr, Sub64(length, 1)))
    }

    /** A naturally aligned power of two of at least a page, not reaching the end of the
        address space. */
    predicate Natural() {
      && IsPow2(length) && PAGE <= length
      && virt % length == 0 && phys % length == 0
      && virt + length < W64
    }
  }

  /** `(addr & ~(length - 1))`: where the cache starts the region a reply describes. */
  function AlignDown(addr: U64, length: U64): U64 {
    And(addr, Not64(Sub64(length, 1)))
  }

  // ----- Lookup

  function Lookup(regions: seq<Region>, addr: U64): Option<Region> {
    if regions == [] then None
    else if regions[0].Contains(addr) then Some(regions[0])
    else Lookup(regions[1..], addr)
  }

  ghost predicate Covers(regions: seq<Region>, addr: U64) {
    exists r :: r in regions && r.Contains(addr)
  }

  lemma {:induction false} LookupFinds(regions: seq<Region>, addr: U64)
    ensures Lookup(regions, addr).Some? <==> Covers(regions, addr)
    ensures Lookup(regions, addr).Some? ==>
              Lookup(regions, addr).value in regions && Lookup(regions, addr).value.Contains(addr)
    decreases |regions|
  {
    if regions != [] && !regions[0].Contains(addr) {
      LookupFinds(regions[1..], addr);
      if Covers(regions, addr) {
        var r :| r in regions && r.Contains(addr);
        assert r in regions[1..];
      }
    }
  }

  /** Adding regions at the end never changes what is found. */
  lemma {:induction false} LookupAppend(regions: seq<Region>, more: seq<Region>, addr: U64)
    ensures Lookup(regions + more, addr) ==
            if Lookup(regions, addr).Some? then Lookup(regions, addr) else Lookup(more, addr)
    decreases |regions|
  {
    if regions == [] {
      assert regions + more == more;
    } else {
      assert (regions + more)[1..] == regions[1..] + more;
      LookupAppend(regions[1..], more, addr);
    }
  }

  lemma CoversAppend(regions: seq<Region>, more: seq<Region>, addr: U64)
    ensures Covers(regions + more, addr) <==> Covers(regions, addr) || Covers(more, addr)
  {
    LookupAppend(regions, more, addr);
    LookupFinds(regions, addr);
    LookupFinds(more, addr);
    LookupFinds(regions + more, addr);
  }

  // ----- The bit arithmetic of a natural region

  lemma NaturalContains(r: Region, addr: U64)
    requires r.Natural()
    ensures r.Contains(addr) <==> r.virt <= addr < r.virt + r.length
  {
  }

  lemma MaskBelow(length: U64)
    requires length > 0
    ensures Sub64(length, 1) == length - 1
  {
  }

  /** Inside a natural region, OR-ing in the low bits is adding the distance from its start. */
  lemma NaturalTranslation(r: Region, addr: U64)
    requires r.Natural() && r.Contains(addr)
    ensures r.VirtToPhys(addr) == r.phys + (addr - r.virt)
    ensures And(r.VirtToPhys(addr), PAGE - 1) == addr % 4096
  {
    hide And, Or, IsPow2;
    NaturalContains(r, addr);
    SamePageOffset(r, addr);
    MaskBelow(r.length);
    LowBits(addr, r.length);
    Arith.RemainderAbove(r.virt, addr, r.length);
    assert And(addr, Sub64(r.length, 1)) == addr - r.virt;
    OrAligned(r.phys, addr - r.virt, r.length);
  }

  lemma SamePageOffset(r: Region, addr: U64)
    requires r.Natural() && r.Contains(addr)
    ensures And(r.phys + (addr - r.virt), PAGE - 1) == addr % 4096
  {
    hide And, IsPow2;
    PageIsPow2();
    PageAligned(r);
    Arith.SameRemainder(r.phys, r.virt, addr - r.virt);
    LowBits(r.phys + (addr - r.virt), PAGE);
  }

  /** Both ends of a natural region are page boundaries. */
  lemma PageAligned(r: Region)
    requires r.Natural()
    ensures r.virt % 4096 == 0 && r.phys % 4096 == 0 && r.length % 4096 == 0
  {
    PageIsPow2();
    LargerIsMultiple(PAGE, r.length);
    ModOfMultiple(r.phys, PAGE, r.length);
    ModOfMultiple(r.virt, PAGE, r.length);
  }

  lemma PageIsPow2()
    ensures IsPow2(PAGE)
  {
    assert IsPow2(4096 / 2 / 2 / 2 / 2 / 2 / 2);
  }

  /** The region a reply of natural size makes contains the address asked for. */
  lemma AlignDownContains(addr: U64, length: U64)
    requires IsPow2(length)
    ensures AlignDown(addr, length) == addr - addr % length
    ensures AlignDown(addr, length) % length == 0
    ensures AlignDown(addr, length) <= addr < AlignDown(addr, length) + length
  {
    MaskBelow(length);
    HighBits(addr, length);
    Arith.RoundDown(addr, length);
  }

  // ----- Invalidation

  predicate InRange(addr: U64, start: U64, len: U64) {
    addr >= start && addr < Add64(start, len)
  }

  /** The test that erases a region: one of its two end points lies in the range. */
  predicate Hit(r: Region, start: U64, len: U64) {
    var last := Sub64(Add64(r.virt, r.length), 1);
    InRange(r.virt, start, len) || InRange(last, start, len)
  }

  /** The regions an invalidation keeps, in order. */
  function Purge(regions: seq<Region>, start: U64, len: U64): seq<Region> {
    if regions == [] then []
    else if Hit(regions[0], start, len) then Purge(regions[1..], start, len)
    else [regions[0]] + Purge(regions[1..], start, len)
  }

  lemma PurgeFirst(regions: seq<Region>, start: U64, len: U64)
    requires regions != []
    ensures var rest := Purge(regions[1..], start, len);
            Purge(regions, start, len) == if Hit(regions[0], start, len) then rest else [regions[0]] + rest
  {
  }

  /** An invalidation that has looked at the first `it` of the regions left. */
  function PurgedFrom(regions: seq<Region>, it: nat, start: U64, len: U64): seq<Region>
    requires it <= |regions|
  {
    regions[..it] + Purge(regions[it..], start, len)
  }

  lemma PurgeEnds(regions: seq<Region>, start: U64, len: U64)
    ensures PurgedFrom(regions, 0, start, len) == Purge(regions, start, len)
    ensures PurgedFrom(regions, |regions|, start, len) == regions
  {
    assert regions[0..] == regions && regions[|regions|..] == [];
    assert regions[..|regions|] == regions;
  }

  lemma PurgeErases(regions: seq<Region>, it: nat, start: U64, len: U64)
    requires it < |regions| && Hit(regions[it], start, len)
    ensures PurgedFrom(regions[..it] + regions[it + 1..], it, start, len) == PurgedFrom(regions, it, start, len)
  {
    var erased := regions[..it] + regions[it + 1..];
    assert erased[..it] == regions[..it] && erased[it..] == regions[it..][1..];
    PurgeFirst(regions[it..], start, len);
  }

  lemma PurgePasses(regions: seq<Region>, it: nat, start: U64, len: U64)
    requires it < |regions| && !Hit(regions[it], start, len)
    ensures PurgedFrom(regions, it + 1, start, len) == PurgedFrom(regions, it, start, len)
  {
    var kept := Purge(regions[it + 1..], start, len);
    assert regions[it..][1..] == regions[it + 1..];
    PurgeFirst(regions[it..], start, len);
    assert regions[..it + 1] + kept == regions[..it] + ([regions[it]] + kept);
  }

  lemma {:induction false} PurgeMembers(regions: seq<Region>, start: U64, len: U64, r: Region)
    ensures r in Purge(regions, start, len) <==> r in regions && !Hit(r, start, len)
    decreases |regions|
  {
    if regions != [] {
      PurgeMembers(regions[1..], start, len, r);
      assert regions == [regions[0]] + regions[1..];
    }
  }

  /** A region that takes up part of the address space without wrapping. */
  predicate Proper(r: Region) {
    r.length > 0 && r.virt + r.length < W64
  }

  predicate Overlaps(r: Region, start: U64, len: U64) {
    r.virt < start + len && start < r.virt + r.length
  }

  /** The range lies inside the region and touches neither of its ends. */
  predicate Encloses(r: Region, start: U64, len: U64) {
    r.virt < start && start + len < r.virt + r.length
  }

  /** Overlapping is having an address in common; enclosing is holding the range and an address on
      either side of it. */
  lemma OverlapsAndEncloses(r: Region, start: U64, len: U64)
    requires Proper(r) && len > 0 && start + len < W64
    ensures Overlaps(r, start, len) <==> exists x: U64 :: r.Contains(x) && start <= x < start + len
    ensures Encloses(r, start, len) <==>
            start > 0 && r.Contains(start - 1) && r.Contains(start + len)
  {
    AddPlain(r.virt, r.length);
    var common: U64 := if r.virt < start then start else r.virt;
    assert Overlaps(r, start, len) ==> r.Contains(common) && start <= common < start + len;
  }

  /** The end-point test catches exactly the overlapping regions that do not enclose the range. */
  lemma HitExactly(r: Region, start: U64, len: U64)
    requires Proper(r) && len > 0 && start + len < W64
    ensures Hit(r, start, len) <==> Overlaps(r, start, len) && !Encloses(r, start, len)
  {
  }

  /** An invalidation leaves no translation for any part of its range exactly when no cached
      region encloses the range. */
  lemma InvalidateExact(regions: seq<Region>, start: U64, len: U64)
    requires len > 0 && start + len < W64
    requires forall r :: r in regions ==> Proper(r)
    ensures (forall r :: r in Purge(regions, start, len) ==> !Overlaps(r, start, len))
            <==> (forall r :: r in regions ==> !Encloses(r, start, len))
  {
    forall r | r in regions && Encloses(r, start, len)
      ensures r in Purge(regions, start, len) && Overlaps(r, start, len)
    {
      HitExactly(r, start, len);
      PurgeMembers(regions, start, len, r);
    }
    forall r | r in Purge(regions, start, len) && Overlaps(r, start, len)
      ensures r in regions && Encloses(r, start, len)
    {
      PurgeMembers(regions, start, len, r);
      HitExactly(r, start, len);
    }
  }

  /** Naturally aligned ranges nest or are disjoint, so only a range smaller than the region
      can be enclosed by it. */
  lemma AlignedNeverEnclosed(r: Region, start: U64, len: U64)
    requires r.Natural() && IsPow2(len) && start % len == 0 && start + len < W64
    requires len >= r.length
    ensures !Encloses(r, start, len)
  {
  }

  /** Translations of addresses that no erased region supplied stay what they were. */
  lemma {:induction false} PurgeKeepsOthers(regions: seq<Region>, start: U64, len: U64, addr: U64)
    requires forall r :: r in regions && r.Contains(addr) ==> !Hit(r, start, len)
    ensures Lookup(Purge(regions, start, len), addr) == Lookup(regions, addr)
    decreases |regions|
  {
    if regions != [] {
      PurgeKeepsOthers(regions[1..], start, len, addr);
    }
  }
}
