/** The host's page map, and what it means for the cache to agree with it. */
module AtcHost {
  import opened Bits
  import opened AtcRegions

  /** Page number to page frame number. */
  type HostMap = map<nat, nat>

  ghost predicate Mapped(host: HostMap, addr: nat) { addr / 4096 in host }

  /** The host's translation of an address. */
  function HostPhys(host: HostMap, addr: nat): nat
    requires Mapped(host, addr)
  {
    host[addr / 4096] * 4096 + addr % 4096
  }

  predicate InPage(r: Region, p: nat) {
    r.virt <= p * 4096 < r.virt + r.length
  }

  /** The region maps page `p` where the host does. */
  ghost predicate AgreesAt(host: HostMap, r: Region, p: nat) {
    p in host && host[p] * 4096 == r.phys + (p * 4096 - r.virt)
  }

  ghost predicate Agrees(host: HostMap, r: Region) {
    forall p: nat :: InPage(r, p) ==> AgreesAt(host, r, p)
  }

  ghost predicate Coherent(host: HostMap, regions: seq<Region>) {
    forall r :: r in regions ==> r.Natural() && Agrees(host, r)
  }

  lemma PageInside(r: Region, addr: U64)
    requires r.Natural() && r.Contains(addr)
    ensures InPage(r, addr / 4096)
  {
    NaturalContains(r, addr);
    PageAligned(r);
  }

  /** A region that maps the page of an address where the host does translates the address
      as the host does. */
  lemma AgreeingTranslation(host: HostMap, r: Region, addr: U64)
    requires r.Natural() && r.Contains(addr) && AgreesAt(host, r, addr / 4096)
    ensures Mapped(host, addr) && r.VirtToPhys(addr) == HostPhys(host, addr)
  {
    NaturalTranslation(r, addr);
    assert addr == addr / 4096 * 4096 + addr % 4096;
  }

  /** What a coherent cache finds is the host's translation. */
  lemma CoherentLookup(host: HostMap, regions: seq<Region>, addr: U64)
    requires Coherent(host, regions) && Covers(regions, addr)
    ensures Lookup(regions, addr).Some? && Mapped(host, addr)
    ensures Lookup(regions, addr).value.VirtToPhys(addr) == HostPhys(host, addr)
  {
    LookupFinds(regions, addr);
    var r := Lookup(regions, addr).value;
    PageInside(r, addr);
    AgreeingTranslation(host, r, addr);
  }
}
