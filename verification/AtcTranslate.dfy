/** The translate loop: one cache check per 4 KiB step, and which ranges it covers. */
module AtcTranslate {
  import opened Bits
  import opened AtcRegions
  import opened AtcRequests

  /** The cache after a step, the requests sent, and whether every request loop has ended. */
  datatype Ready = Ready(regions: seq<Region>, sent: nat, done: bool)

  /** Requests a range unless its first byte is already cached. */
  function Ensured(regions: seq<Region>, sent: nat, addr: U64, length: U64, agent: Agent, limit: nat): Ready {
    if Lookup(regions, addr).Some? then Ready(regions, sent, true)
    else
      var f := Request(addr, length, agent, sent, limit);
      Ready(regions + f.added, f.sent, f.done)
  }

  function TranslateLoop(regions: seq<Region>, sent: nat, addr: U64, length: U64, agent: Agent, limit: nat): Ready
    decreases length
  {
    if length == 0 then Ready(regions, sent, true)
    else
      var e := Ensured(regions, sent, addr, PAGE, agent, limit);
      if !e.done || length < PAGE then e
      else TranslateLoop(e.regions, e.sent, Add64(addr, PAGE), length - PAGE, agent, limit)
  }

  ghost predicate AllNatural(regions: seq<Region>) {
    forall r :: r in regions ==> r.Natural()
  }

  ghost predicate CoversRange(regions: seq<Region>, from: int, to: int) {
    forall x: U64 :: from <= x < to ==> Covers(regions, x)
  }

  /** The end of the pages the loop looks at: one per started 4 KiB of length. */
  function LoopEnd(addr: U64, length: U64): int {
    addr - addr % 4096 + (length + 4095) / 4096 * 4096
  }

  /** The pages the loop looks at reach the end of the range. */
  predicate PagesSuffice(addr: U64, length: U64) {
    length == 0 || addr + length <= LoopEnd(addr, length)
  }

  // ----- What is cached stays cached

  lemma EnsuredExtends(regions: seq<Region>, sent: nat, addr: U64, length: U64, agent: Agent, limit: nat, x: U64)
    requires Covers(regions, x)
    ensures Covers(Ensured(regions, sent, addr, length, agent, limit).regions, x)
  {
    CoversAppend(regions, Request(addr, length, agent, sent, limit).added, x);
  }

  lemma {:induction false} LoopExtends(
    regions: seq<Region>, sent: nat, addr: U64, length: U64, agent: Agent, limit: nat, x: U64)
    requires Covers(regions, x)
    ensures Covers(TranslateLoop(regions, sent, addr, length, agent, limit).regions, x)
    decreases length
  {
    if length > 0 {
      EnsuredExtends(regions, sent, addr, PAGE, agent, limit, x);
      var e := Ensured(regions, sent, addr, PAGE, agent, limit);
      if e.done && length >= PAGE {
        LoopExtends(e.regions, e.sent, Add64(addr, PAGE), length - PAGE, agent, limit, x);
      }
    }
  }

  lemma EnsuredNatural(
    regions: seq<Region>, sent: nat, addr: U64, length: U64, agent: Agent, limit: nat, top: U64)
    requires AllNatural(regions) && Sound(agent, top) && addr + length <= top
    ensures AllNatural(Ensured(regions, sent, addr, length, agent, limit).regions)
  {
    PagePlain(addr, length);
    FillChains(PageOf(addr), Extended(addr, length), agent, sent, limit, top);
  }

  // ----- Coverage

  /** A natural region that contains an address contains its whole page. */
  lemma RegionHoldsPage(regions: seq<Region>, addr: U64)
    requires AllNatural(regions) && Covers(regions, addr)
    ensures CoversRange(regions, addr - addr % 4096, addr - addr % 4096 + PAGE)
  {
    var r :| r in regions && r.Contains(addr);
    PageAligned(r);
    NaturalContains(r, addr);
    PageWithin(addr, r.virt, r.length);
    forall x: U64 | addr - addr % 4096 <= x < addr - addr % 4096 + PAGE
      ensures Covers(regions, x)
    {
      NaturalContains(r, x);
    }
  }

  lemma PageWithin(addr: int, virt: int, length: int)
    requires virt % 4096 == 0 && length % 4096 == 0 && virt <= addr < virt + length
    ensures virt <= addr - addr % 4096 && addr - addr % 4096 + PAGE <= virt + length
  {
  }

  lemma EnsuredCoversPage(
    regions: seq<Region>, sent: nat, addr: U64, length: U64, agent: Agent, limit: nat, top: U64)
    requires AllNatural(regions) && Sound(agent, top) && addr + length <= top && length > 0
    requires Ensured(regions, sent, addr, length, agent, limit).done
    ensures Covers(Ensured(regions, sent, addr, length, agent, limit).regions, addr)
    ensures CoversRange(Ensured(regions, sent, addr, length, agent, limit).regions,
                        addr - addr % 4096, addr - addr % 4096 + PAGE)
  {
    LookupFinds(regions, addr);
    EnsuredNatural(regions, sent, addr, length, agent, limit, top);
    if !Covers(regions, addr) {
      RequestCachesFirst(addr, length, agent, sent, limit, top);
      CoversAppend(regions, Request(addr, length, agent, sent, limit).added, addr);
    }
    RegionHoldsPage(Ensured(regions, sent, addr, length, agent, limit).regions, addr);
  }

  lemma NextStep(addr: U64, length: U64)
    requires length >= PAGE && addr + PAGE < W64
    ensures (addr + PAGE) - (addr + PAGE) % 4096 == addr - addr % 4096 + PAGE
    ensures LoopEnd(addr + PAGE, length - PAGE) == LoopEnd(addr, length)
  {
  }

  lemma FirstPageOnly(addr: U64, length: U64)
    ensures length == 0 ==> LoopEnd(addr, length) == addr - addr % 4096
    ensures 0 < length < PAGE ==> LoopEnd(addr, length) == addr - addr % 4096 + PAGE
  {
  }

  lemma LoopStep(regions: seq<Region>, sent: nat, addr: U64, length: U64, agent: Agent, limit: nat, e: Ready)
    requires length > 0 && addr + PAGE < W64 && e == Ensured(regions, sent, addr, PAGE, agent, limit)
    ensures TranslateLoop(regions, sent, addr, length, agent, limit) ==
            if !e.done || length < PAGE then e
            else TranslateLoop(e.regions, e.sent, addr + PAGE, length - PAGE, agent, limit)
  {
  }

  /** The first iteration of a finished loop, and the rest of it. */
  lemma LoopUnfolds(
    regions: seq<Region>, sent: nat, addr: U64, length: U64, agent: Agent, limit: nat, top: U64)
    returns (e: Ready)
    requires AllNatural(regions) && Sound(agent, top) && addr + length + PAGE <= top && length > 0
    requires TranslateLoop(regions, sent, addr, length, agent, limit).done
    ensures AllNatural(e.regions) && CoversRange(e.regions, addr - addr % 4096, addr - addr % 4096 + PAGE)
    ensures TranslateLoop(regions, sent, addr, length, agent, limit) ==
            if length < PAGE then e else TranslateLoop(e.regions, e.sent, addr + PAGE, length - PAGE, agent, limit)
  {
    e := Ensured(regions, sent, addr, PAGE, agent, limit);
    LoopStep(regions, sent, addr, length, agent, limit, e);
    EnsuredCoversPage(regions, sent, addr, PAGE, agent, limit, top);
    EnsuredNatural(regions, sent, addr, PAGE, agent, limit, top);
  }

  /** Once finished, the loop has cached every page it looked at, whatever sizes the replies had
      and whatever natural regions were cached before. */
  lemma {:induction false} LoopCoversPages(
    regions: seq<Region>, sent: nat, addr: U64, length: U64, agent: Agent, limit: nat, top: U64, x: U64)
    requires AllNatural(regions) && Sound(agent, top) && addr + length + PAGE <= top
    requires TranslateLoop(regions, sent, addr, length, agent, limit).done
    requires addr - addr % 4096 <= x < LoopEnd(addr, length)
    ensures Covers(TranslateLoop(regions, sent, addr, length, agent, limit).regions, x)
    decreases length
  {
    FirstPageOnly(addr, length);
    var e := LoopUnfolds(regions, sent, addr, length, agent, limit, top);
    if length >= PAGE {
      NextStep(addr, length);
      if x < addr - addr % 4096 + PAGE {
        LoopExtends(e.regions, e.sent, addr + PAGE, length - PAGE, agent, limit, x);
      } else {
        LoopCoversPages(e.regions, e.sent, addr + PAGE, length - PAGE, agent, limit, top, x);
      }
    }
  }

  /** The range is cached after the loop, whatever the cache held and the agent answers. */
  ghost predicate TranslatesAll(addr: U64, length: U64, top: U64) {
    forall regions: seq<Region>, sent: nat, agent: Agent, limit: nat ::
      AllNatural(regions) && Sound(agent, top)
      && TranslateLoop(regions, sent, addr, length, agent, limit).done ==>
        CoversRange(TranslateLoop(regions, sent, addr, length, agent, limit).regions, addr, addr + length)
  }

  /** One page per region, over the `n` pages from `page`. */
  function PageRegions(page: U64, n: nat): seq<Region>
    requires page % 4096 == 0 && page + n * 4096 < W64
  {
    seq(n, i requires 0 <= i < n =>
      assert page + (i + 1) * 4096 <= page + n * 4096;
      Region(page + i * 4096, 0, PAGE, {}))
  }

  lemma PageRegionAt(page: U64, n: nat, i: nat, x: U64)
    requires page % 4096 == 0 && page + n * 4096 < W64 && i < n
    ensures var r := PageRegions(page, n)[i];
            r.Natural() && (r.Contains(x) <==> page + i * 4096 <= x < page + (i + 1) * 4096)
  {
    hide IsPow2;
    PageIsPow2();
    assert page + (i + 1) * 4096 <= page + n * 4096;
    NaturalContains(PageRegions(page, n)[i], x);
  }

  lemma PageRegionsCover(page: U64, n: nat, x: U64)
    requires page % 4096 == 0 && page + n * 4096 < W64
    ensures AllNatural(PageRegions(page, n))
    ensures Covers(PageRegions(page, n), x) <==> page <= x < page + n * 4096
  {
    var rs := PageRegions(page, n);
    forall r | r in rs ensures r.Natural() && (r.Contains(x) ==> page <= x < page + n * 4096) {
      var i :| 0 <= i < n && r == rs[i];
      PageRegionAt(page, n, i, x);
    }
    if page <= x < page + n * 4096 {
      PageRegionAt(page, n, (x - page) / 4096, x);
      assert rs[(x - page) / 4096] in rs;
    }
  }

  /** When every page the loop looks at is cached, it does nothing. */
  lemma {:induction false} LoopFindsCached(
    regions: seq<Region>, sent: nat, addr: U64, length: U64, agent: Agent, limit: nat)
    requires addr + length + PAGE < W64
    requires CoversRange(regions, addr - addr % 4096, LoopEnd(addr, length))
    ensures TranslateLoop(regions, sent, addr, length, agent, limit) == Ready(regions, sent, true)
    decreases length
  {
    if length > 0 {
      LookupFinds(regions, addr);
      FirstPage(addr, length);
      if length >= PAGE {
        NextStep(addr, length);
        LoopFindsCached(regions, sent, addr + PAGE, length - PAGE, agent, limit);
      }
    }
  }

  lemma FirstPage(addr: U64, length: U64)
    requires length > 0
    ensures addr < LoopEnd(addr, length)
  {
  }

  /** The translate loop caches every byte of the range, for every prior cache of natural
      regions and any mix of reply sizes, exactly when the pages it steps through reach the end
      of the range: always for a page-aligned start. */
  lemma TranslatesAllIff(addr: U64, length: U64, top: U64)
    requires addr + length + 2 * 4096 <= top
    ensures TranslatesAll(addr, length, top) <==> PagesSuffice(addr, length)
    ensures addr % 4096 == 0 ==> PagesSuffice(addr, length)
  {
    if PagesSuffice(addr, length) {
      forall regions: seq<Region>, sent: nat, agent: Agent, limit: nat
        | AllNatural(regions) && Sound(agent, top)
          && TranslateLoop(regions, sent, addr, length, agent, limit).done
        ensures CoversRange(TranslateLoop(regions, sent, addr, length, agent, limit).regions, addr, addr + length)
      {
        forall x: U64 | addr <= x < addr + length
          ensures Covers(TranslateLoop(regions, sent, addr, length, agent, limit).regions, x)
        {
          LoopCoversPages(regions, sent, addr, length, agent, limit, top, x);
        }
      }
    } else {
      ShortLoopMisses(addr, length, top);
    }
  }

  lemma ShortLoopMisses(addr: U64, length: U64, top: U64)
    requires addr + length + 2 * 4096 <= top && !PagesSuffice(addr, length)
    ensures !TranslatesAll(addr, length, top)
  {
    var page, n := addr - addr % 4096, (length + 4095) / 4096;
    var regions := PageRegions(page, n);
    var agent: Agent := (k, a) => Refused;
    var missed: U64 := addr + length - 1;
    PageRegionsCover(page, n, missed);
    forall x: U64 | page <= x < LoopEnd(addr, length) ensures Covers(regions, x) {
      PageRegionsCover(page, n, x);
    }
    LoopFindsCached(regions, 0, addr, length, agent, 0);
    assert AllNatural(regions) && Sound(agent, top);
    assert !CoversRange(TranslateLoop(regions, 0, addr, length, agent, 0).regions, addr, addr + length);
  }

  // ----- What it asks for

  /** Every page is granted at once, by itself, always with the same translation. */
  ghost predicate GrantsPages(agent: Agent, top: U64) {
    forall k: nat, a: U64 | a % 4096 == 0 && a < top ::
      agent(k, a) == agent(0, a) && agent(k, a).Granted? && agent(k, a).length == 4096
  }

  function GrantedPage(agent: Agent, page: U64): Region {
    match agent(0, page)
    case Granted(phys, _, attrs) => Region(page, phys, 4096, attrs)
    case Refused => Region(page, 0, 4096, {})
  }

  /** The pages of the `n` from `page` on that are not cached, as granted. */
  function MissingPages(regions: seq<Region>, page: U64, n: nat, agent: Agent): seq<Region>
    requires page + n * 4096 < W64
    decreases n
  {
    if n == 0 then []
    else
      var later := MissingPages(regions, page + 4096, n - 1, agent);
      if Lookup(regions, page).Some? then later else [GrantedPage(agent, page)] + later
  }

  /** A page before them makes no difference. */
  lemma {:induction false} EarlierPageIgnored(regions: seq<Region>, r: Region, page: U64, n: nat, agent: Agent)
    requires page + n * 4096 < W64 && r.length == 4096 && r.virt + 4096 <= page
    ensures MissingPages(regions + [r], page, n, agent) == MissingPages(regions, page, n, agent)
    decreases n
  {
    hide GrantedPage;
    if n > 0 {
      LookupAppend(regions, [r], page);
      AddPlain(r.virt, r.length);
      assert [r][1..] == [] && !r.Contains(page);
      EarlierPageIgnored(regions, r, page + 4096, n - 1, agent);
    }
  }

  /** One check of a page that is granted by itself. */
  lemma PageEnsured(regions: seq<Region>, sent: nat, page: U64, agent: Agent, limit: nat, top: U64)
    requires page % 4096 == 0 && page + 4096 <= top && GrantsPages(agent, top) && sent < limit
    ensures Ensured(regions, sent, page, PAGE, agent, limit) ==
            if Lookup(regions, page).Some? then Ready(regions, sent, true)
            else Ready(regions + [GrantedPage(agent, page)], sent + 1, true)
  {
    PagePlain(page, PAGE);
    PageIsPow2();
    AlignDownContains(page, 4096);
    hide AlignDown, PageOf, Extended;
    if Lookup(regions, page).None? {
      assert agent(sent, page) == agent(0, page);
      var next: U64 := Add64(AlignDown(page, 4096), 4096);
      assert Fill(next, 0, agent, sent + 1, limit) == Filled([], sent + 1, true);
      assert ReplyRegion(page, agent(sent, page)) == GrantedPage(agent, page);
      assert [GrantedPage(agent, page)] + [] == [GrantedPage(agent, page)];
    }
  }

  /** The missing pages after one check of the first. */
  lemma FirstEnsured(
    regions: seq<Region>, sent: nat, page: U64, n: nat, agent: Agent, limit: nat, top: U64)
    requires page % 4096 == 0 && n > 0 && page + n * 4096 <= top && GrantsPages(agent, top) && sent < limit
    ensures var e := Ensured(regions, sent, page, PAGE, agent, limit);
            var all, later := MissingPages(regions, page, n, agent), MissingPages(e.regions, page + PAGE, n - 1, agent);
            && e.done && sent <= e.sent <= sent + 1
            && regions + all == e.regions + later && sent + |all| == e.sent + |later|
  {
    PageEnsured(regions, sent, page, agent, limit, top);
    hide Ensured, Lookup, GrantsPages;
    if Lookup(regions, page).None? {
      var first, later := GrantedPage(agent, page), MissingPages(regions, page + 4096, n - 1, agent);
      EarlierPageIgnored(regions, first, page + 4096, n - 1, agent);
      hide GrantedPage;
      assert regions + [first] + later == regions + ([first] + later);
    }
  }

  /** The pages a length takes up from a page start on. */
  function PageCount(length: U64): nat { (length + 4095) / 4096 }

  lemma PageCountNext(length: U64)
    requires length > 0
    ensures PageCount(length) > 0
    ensures PageCount(length) == if length < PAGE then 1 else 1 + PageCount(length - PAGE)
  {
  }

  /** From a page-aligned start the loop asks for exactly the pages of its range that are not
      cached, one request each, in order. */
  lemma {:induction false} LoopAsksForMissing(
    regions: seq<Region>, sent: nat, addr: U64, length: U64, agent: Agent, limit: nat, top: U64)
    requires addr % 4096 == 0 && addr + PageCount(length) * 4096 <= top && GrantsPages(agent, top)
    requires sent + PageCount(length) <= limit
    ensures var missing := MissingPages(regions, addr, PageCount(length), agent);
            TranslateLoop(regions, sent, addr, length, agent, limit) ==
            Ready(regions + missing, sent + |missing|, true)
    decreases length
  {
    if length == 0 {
      assert regions + [] == regions;
    } else {
      var n := PageCount(length);
      PageCountNext(length);
      hide PageCount, TranslateLoop, Ensured, GrantsPages, MissingPages;
      var e := Ensured(regions, sent, addr, PAGE, agent, limit);
      FirstEnsured(regions, sent, addr, n, agent, limit, top);
      if length < PAGE {
        LoopEnds(regions, sent, addr, length, agent, limit, e);
        NoPagesMissing(e.regions, addr + PAGE, agent);
      } else {
        LoopStep(regions, sent, addr, length, agent, limit, e);
        LoopAsksForMissing(e.regions, e.sent, addr + PAGE, length - PAGE, agent, limit, top);
      }
    }
  }

  lemma NoPagesMissing(regions: seq<Region>, page: U64, agent: Agent)
    ensures MissingPages(regions, page, 0, agent) == [] && regions + [] == regions
  {
  }

  lemma LoopEnds(
    regions: seq<Region>, sent: nat, addr: U64, length: U64, agent: Agent, limit: nat, e: Ready)
    requires 0 < length < PAGE && e == Ensured(regions, sent, addr, PAGE, agent, limit)
    ensures TranslateLoop(regions, sent, addr, length, agent, limit) == e
  {
  }

  // ----- Termination

  /** A check ends, and from then on always in the same way. */
  lemma EnsuredTerminates(
    regions: seq<Region>, sent: nat, addr: U64, length: U64, agent: Agent, top: U64)
    returns (limit: nat, e: Ready)
    requires Sound(agent, top) && Answers(agent, top) && addr + length <= top
    ensures e.done
    ensures forall more: nat | limit <= more :: Ensured(regions, sent, addr, length, agent, more) == e
  {
    PagePlain(addr, length);
    limit := FillTerminates(PageOf(addr), Extended(addr, length), agent, sent, top);
    e := Ensured(regions, sent, addr, length, agent, limit);
    forall more: nat | limit <= more ensures Ensured(regions, sent, addr, length, agent, more) == e {
      assert Fill(PageOf(addr), Extended(addr, length), agent, sent, limit).done;
      FillMonotone(PageOf(addr), Extended(addr, length), agent, sent, limit, more);
    }
  }

  /** The translate loop ends when no request is refused for ever. */
  lemma {:induction false} LoopTerminates(
    regions: seq<Region>, sent: nat, addr: U64, length: U64, agent: Agent, top: U64)
    returns (limit: nat)
    requires Sound(agent, top) && Answers(agent, top) && addr + length + PAGE <= top
    ensures forall more: nat | limit <= more :: TranslateLoop(regions, sent, addr, length, agent, more).done
    decreases length
  {
    limit := 0;
    if length > 0 {
      var e;
      limit, e := EnsuredTerminates(regions, sent, addr, PAGE, agent, top);
      if length >= PAGE {
        var rest := LoopTerminates(e.regions, e.sent, addr + PAGE, length - PAGE, agent, top);
        limit := if limit < rest then rest else limit;
      }
    }
  }
}
