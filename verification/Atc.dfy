/** The address translation cache: a vector of regions that requests extend and invalidations
    trim in place. */
module Atc {
  import opened Basics
  import opened Bits
  import opened AtcRegions
  import opened AtcRequests

  class TranslationCache {
    var regions: seq<Region>
    /** Number of translation requests sent so far. */
    var sent: nat

    constructor ()
      ensures regions == [] && sent == 0
    {
      regions, sent := [], 0;
    }

    method Contains(addr: U64) returns (found: bool)
      ensures found == Covers(regions, addr)
    {
      var it := 0;
      while it < |regions|
        invariant 0 <= it <= |regions|
        invariant forall k :: 0 <= k < it ==> !regions[k].Contains(addr)
      {
        if regions[it].Contains(addr) {
          return true;
        }
        it := it + 1;
      }
      return false;
    }

    method VirtToPhys(addr: U64) returns (phys: nat)
      ensures phys == if Lookup(regions, addr).Some? then Lookup(regions, addr).value.VirtToPhys(addr) else 0
    {
      var it := 0;
      while it < |regions|
        invariant 0 <= it <= |regions|
        invariant Lookup(regions, addr) == Lookup(regions[it..], addr)
      {
        if regions[it].Contains(addr) {
          return regions[it].VirtToPhys(addr);
        }
        assert regions[it..][1..] == regions[it + 1..];
        it := it + 1;
      }
      return 0;
    }

    method TestAttr(addr: U64, attr: Attr) returns (ok: bool)
      ensures ok <==> Lookup(regions, addr).Some? && attr in Lookup(regions, addr).value.attrs
    {
      var it := 0;
      while it < |regions|
        invariant 0 <= it <= |regions|
        invariant Lookup(regions, addr) == Lookup(regions[it..], addr)
      {
        if regions[it].Contains(addr) {
          return attr in regions[it].attrs;
        }
        assert regions[it..][1..] == regions[it + 1..];
        it := it + 1;
      }
      return false;
    }

    /** Erasing moves the next element under the iterator. */
    method Invalidate(start: U64, len: U64)
      modifies `regions
      ensures regions == Purge(old(regions), start, len)
    {
      PurgeEnds(regions, start, len);
      hide Purge, PurgedFrom;
      var it := 0;
      while it < |regions|
        invariant 0 <= it <= |regions|
        invariant Purge(old(regions), start, len) == PurgedFrom(regions, it, start, len)
        decreases |regions| - it
      {
        var last := Sub64(Add64(regions[it].virt, regions[it].length), 1);
        if InRange(regions[it].virt, start, len) || InRange(last, start, len) {
          PurgeErases(regions, it, start, len);
          regions := regions[..it] + regions[it + 1..];
        } else {
          PurgePasses(regions, it, start, len);
          it := it + 1;
        }
      }
      PurgeEnds(regions, start, len);
    }

    /** Invalidation messages: one without the ATS attributes is acknowledged and ignored. */
    method BTransportAtsInv(addr: U64, ext: Option<U64>)
      modifies `regions
      ensures regions == if ext.Some? then Purge(old(regions), addr, ext.value) else old(regions)
    {
      if ext.Some? {
        Invalidate(addr, ext.value);
      }
    }

    /** The request loop, observed until it is done or `limit` requests have been sent. */
    method DoAtsReq(addr: U64, length: U64, agent: Agent, limit: nat) returns (done: bool)
      modifies this
      ensures var f := Request(addr, length, agent, old(sent), limit);
              regions == old(regions) + f.added && sent == f.sent && done == f.done
    {
      hide And, IsPow2;
      var left: U64 := Add64(length, And(addr, PAGE - 1));
      var asked: U64 := And(addr, Not64(PAGE - 1));
      ghost var all := Request(addr, length, agent, sent, limit);
      ghost var rest := all;
      while left > 0
        invariant rest == Fill(asked, left, agent, sent, limit)
        invariant regions + rest.added == old(regions) + all.added
        invariant rest.sent == all.sent && rest.done == all.done
        decreases limit - sent
      {
        if sent >= limit {
          return false;
        }
        var g := agent(sent, asked);
        sent := sent + 1;
        if g.Granted? {
          asked := And(asked, Not64(Sub64(g.length, 1)));
          regions := regions + [Region(asked, g.phys, g.length, g.attrs)];
          if g.length > left {
            return true;
          }
          left := left - g.length;
          asked := Add64(asked, g.length);
          rest := Fill(asked, left, agent, sent, limit);
        }
      }
      return true;
    }
  }
}
