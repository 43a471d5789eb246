/** Which ranges a finished request loop is sure to have cached when the agent's replies come from
    one partition of the address space, as those of a page table with large pages do. */
module AtcPartition {
  import Arith
  import opened Bits
  import opened AtcRegions
  import opened AtcRequests
  import opened AtcCoverage

  predicate SameExtent(r: Region, r': Region) {
    r.virt == r'.virt && r.length == r'.length
  }

  predicate Apart(r: Region, r': Region) {
    r.virt + r.length <= r'.virt || r'.virt + r'.length <= r.virt
  }

  /** Any two regions granted are the same or have no address in common. */
  ghost predicate Partitioned(agent: Agent, top: U64) {
    forall k: nat, a: U64, j: nat, b: U64 | a % 4096 == 0 && a < top && b % 4096 == 0 && b < top ::
      agent(k, a).Granted? && agent(j, b).Granted? ==>
        SameExtent(ReplyRegion(a, agent(k, a)), ReplyRegion(b, agent(j, b)))
        || Apart(ReplyRegion(a, agent(k, a)), ReplyRegion(b, agent(j, b)))
  }

  /** Every finished request loop for the range, with any sound agent of that kind, has cached all
      of it. */
  ghost predicate AlwaysCoversPartitioned(addr: U64, length: U64, top: U64) {
    forall agent: Agent, sent: nat, limit: nat ::
      Sound(agent, top) && Partitioned(agent, top) && Request(addr, length, agent, sent, limit).done ==>
        CoversAll(Request(addr, length, agent, sent, limit).added, addr, length)
  }

  /** The largest power of two that divides a number. */
  function Alignment(n: nat): (p: nat)
    requires n > 0
    ensures 0 < p <= n
  {
    if n % 2 == 1 then 1 else 2 * Alignment(n / 2)
  }

  /** The range ends before the next address that is aligned better than its first page. */
  predicate WithinAlignment(addr: U64, length: U64) {
    var page := addr - addr % 4096;
    page == 0 || addr + length <= page + Alignment(page)
  }

  // ----- Alignments

  lemma TwiceMultiple(h: nat, p: nat)
    requires p > 0 && h % p == 0
    ensures 2 * h % (2 * p) == 0 && 2 * h / (2 * p) == h / p
  {
    var q := h / p;
    assert h == p * q;
    assert 2 * h == 2 * p * q;
    Arith.DivModUnique(2 * h, 2 * p, q, 0);
  }

  lemma {:induction false} AlignmentDivides(n: nat)
    requires n > 0
    ensures IsPow2(Alignment(n)) && n % Alignment(n) == 0 && n / Alignment(n) % 2 == 1
    decreases n
  {
    if n % 2 == 0 {
      var h := n / 2;
      AlignmentDivides(h);
      TwiceMultiple(h, Alignment(h));
      assert n == 2 * h && 2 * Alignment(h) / 2 == Alignment(h);
    } else {
      Arith.DivModUnique(n, 1, n, 0);
    }
  }

  /** A power of two that divides a number divides its alignment. */
  lemma PowerDividesAlignment(n: nat, p: nat)
    requires n > 0 && IsPow2(p) && n % p == 0
    ensures p <= Alignment(n)
  {
    var a := Alignment(n);
    AlignmentDivides(n);
    if p > a {
      DoubleBelow(a, p);
      ModOfMultiple(n, 2 * a, p);
      assert n % (2 * a) == 0 by {
        Arith.DivModUnique(0, 2 * a, 0, 0);
      }
      OddMultiple(n, a);
    }
  }

  lemma DoubleBelow(a: nat, p: nat)
    requires IsPow2(a) && IsPow2(p) && a < p
    ensures IsPow2(2 * a) && 2 * a <= p && p % (2 * a) == 0
  {
    assert 2 * a / 2 == a;
    LargerIsMultiple(a, p);
    assert p == a * (p / a) && p / a >= 2;
    Arith.MulGap(a, 1, p / a);
    LargerIsMultiple(2 * a, p);
  }

  /** An odd multiple of `a` is not a multiple of `2 * a`. */
  lemma OddMultiple(n: nat, a: nat)
    requires a > 0 && n % a == 0 && n / a % 2 == 1
    ensures n % (2 * a) == a
  {
    var q := n / a;
    assert n == a * q && q == 2 * (q / 2) + 1;
    assert n == 2 * a * (q / 2) + a;
    Arith.DivModUnique(n, 2 * a, q / 2, a);
  }

  lemma BetweenMultiples(x: nat, low: nat, d: nat)
    requires d > 0 && low % d == 0 && low < x < low + d
    ensures x % d != 0
  {
    Arith.RemainderAbove(low, x, d);
  }

  lemma EndIsMultiple(r: Region, a: nat)
    requires r.Natural() && a > 0 && r.length % (2 * a) == 0
    ensures (r.virt + r.length) % a == 0
  {
    var l := r.length / (2 * a);
    var v := r.virt / r.length;
    assert r.length == 2 * a * l && r.virt == r.length * v;
    assert r.virt + r.length == a * (2 * l * v + 2 * l) by {
      assert r.virt == a * (2 * l * v);
    }
    Arith.DivModUnique(r.virt + r.length, a, 2 * l * v + 2 * l, 0);
  }

  lemma NextMultiple(x: nat, y: nat, a: nat)
    requires a > 0 && x % a == 0 && y % a == 0 && x < y
    ensures x + a <= y
  {
    assert x == a * (x / a) && y == a * (y / a);
    Arith.MulGap(a, y / a, x / a);
    Arith.MulGap(a, x / a, y / a);
  }

  /** A region no larger than the alignment of a page it holds starts at the page. */
  lemma SmallRegionStartsThere(page: U64, r: Region)
    requires page > 0 && IsPow2(r.length) && r.virt % r.length == 0 && r.length <= Alignment(page)
    requires r.virt <= page < r.virt + r.length
    ensures r.virt == page
  {
    var a := Alignment(page);
    AlignmentDivides(page);
    LargerIsMultiple(r.length, a);
    hide IsPow2, Alignment;
    ModOfMultiple(page, r.length, a);
    Arith.DivModUnique(0, r.length, 0, 0);
    if r.virt < page {
      BetweenMultiples(page, r.virt, r.length);
    }
  }

  lemma LargeRegionReaches(page: U64, r: Region)
    requires page > 0 && r.Natural() && Alignment(page) < r.length && r.virt <= page < r.virt + r.length
    ensures page + Alignment(page) <= r.virt + r.length
  {
    var a := Alignment(page);
    AlignmentDivides(page);
    DoubleBelow(a, r.length);
    EndIsMultiple(r, a);
    hide IsPow2, Alignment, Region.Natural;
    NextMultiple(page, r.virt + r.length, a);
  }

  /** A natural region that holds a page and starts below it reaches past its alignment. */
  lemma RoundedReply(page: U64, r: Region)
    requires page > 0 && r.Natural() && r.virt < page < r.virt + r.length
    ensures page + Alignment(page) <= r.virt + r.length
  {
    hide IsPow2, Alignment;
    if r.length <= Alignment(page) {
      SmallRegionStartsThere(page, r);
    } else {
      LargeRegionReaches(page, r);
    }
  }

  // ----- Only the first reply can be rounded down

  /** Right after a region, a reply starts where it ended. */
  lemma NextStartsThere(prev: Region, r: Region, asked: U64)
    requires prev.virt + prev.length == asked && r.virt <= asked < r.virt + r.length && prev.length > 0
    requires SameExtent(prev, r) || Apart(prev, r)
    ensures r.virt == asked
  {
  }

  /** A loop that goes on where a granted region ended loses nothing any more. */
  lemma {:induction false} LosesNothingMore(
    asked: U64, length: U64, agent: Agent, sent: nat, limit: nat, top: U64, k: nat, a: U64)
    requires asked % 4096 == 0 && asked + length <= top && Sound(agent, top) && Partitioned(agent, top)
    requires a % 4096 == 0 && a < top && agent(k, a).Granted?
    requires var prev := ReplyRegion(a, agent(k, a)); prev.length > 0 && prev.virt + prev.length == asked
    ensures RoundingLoss(asked, Fill(asked, length, agent, sent, limit).added) == 0
    decreases limit - sent
  {
    hide And, IsPow2;
    if length > 0 && sent < limit {
      var g := agent(sent, asked);
      if g.Refused? {
        LosesNothingMore(asked, length, agent, sent + 1, limit, top, k, a);
      } else {
        var prev, r := ReplyRegion(a, agent(k, a)), ReplyRegion(asked, g);
        NextAsked(asked, length, agent, sent, top);
        NextStartsThere(prev, r, asked);
        if r.length <= length {
          GrantedLoss(asked, length, agent, sent, limit, r);
          LosesNothingMore(r.virt + r.length, length - r.length, agent, sent + 1, limit, top, sent, asked);
        }
      }
    }
  }

  /** The rounding loss of a granted reply and of the rest of the loop. */
  lemma GrantedLoss(asked: U64, length: U64, agent: Agent, sent: nat, limit: nat, r: Region)
    requires 0 < length && sent < limit && agent(sent, asked).Granted?
    requires r == ReplyRegion(asked, agent(sent, asked)) && r.virt + r.length < W64 && r.length <= length
    ensures var next: U64 := r.virt + r.length;
            RoundingLoss(asked, Fill(asked, length, agent, sent, limit).added) ==
            asked - r.virt + RoundingLoss(next, Fill(next, length - r.length, agent, sent + 1, limit).added)
  {
    hide And, IsPow2;
    FillGrant(asked, length, agent, sent, limit, r);
    var rest := Fill(r.virt + r.length, length - r.length, agent, sent + 1, limit);
    assert ([r] + rest.added)[1..] == rest.added;
  }

  /** From a page the chain of a finished loop reaches the end of the range or the alignment of
      the page. */
  lemma {:induction false} ReachesAlignment(
    page: U64, length: U64, agent: Agent, sent: nat, limit: nat, top: U64)
    requires page % 4096 == 0 && page + length <= top && Sound(agent, top) && Partitioned(agent, top)
    requires Fill(page, length, agent, sent, limit).done
    ensures var end := ChainEnd(page, Fill(page, length, agent, sent, limit).added);
            page + length <= end || (page > 0 && page + Alignment(page) <= end)
    decreases limit - sent
  {
    hide And, IsPow2;
    if length > 0 {
      var g := agent(sent, page);
      if g.Refused? {
        ReachesAlignment(page, length, agent, sent + 1, limit, top);
      } else {
        var r := ReplyRegion(page, g);
        NextAsked(page, length, agent, sent, top);
        EndsAfterGrant(page, length, agent, sent, limit, top);
        if r.virt < page {
          RoundedReply(page, r);
        } else {
          UnroundedReaches(page, length, agent, sent, limit, top, r);
        }
      }
    }
  }

  /** A first reply that starts at the page asked for: the loop loses nothing at all. */
  lemma UnroundedReaches(
    page: U64, length: U64, agent: Agent, sent: nat, limit: nat, top: U64, r: Region)
    requires page % 4096 == 0 && page + length <= top && Sound(agent, top) && Partitioned(agent, top)
    requires 0 < length && sent < limit && Fill(page, length, agent, sent, limit).done
    requires agent(sent, page).Granted? && r == ReplyRegion(page, agent(sent, page)) && r.virt == page
    ensures page + length <= ChainEnd(page, Fill(page, length, agent, sent, limit).added)
  {
    hide And, IsPow2;
    var added := Fill(page, length, agent, sent, limit).added;
    NextAsked(page, length, agent, sent, top);
    if r.length > length {
      EndsAfterGrant(page, length, agent, sent, limit, top);
    } else {
      FillChains(page, length, agent, sent, limit, top);
      GrantedLoss(page, length, agent, sent, limit, r);
      LosesNothingMore(r.virt + r.length, length - r.length, agent, sent + 1, limit, top, sent, page);
      ChainLength(page, added);
    }
  }

  lemma AlignedIsCovered(addr: U64, length: U64, agent: Agent, sent: nat, limit: nat, top: U64)
    requires 0 < length && addr + length <= top && WithinAlignment(addr, length)
    requires Sound(agent, top) && Partitioned(agent, top) && Request(addr, length, agent, sent, limit).done
    ensures CoversAll(Request(addr, length, agent, sent, limit).added, addr, length)
  {
    hide And, IsPow2;
    PagePlain(addr, length);
    var asked, added := PageOf(addr), Request(addr, length, agent, sent, limit).added;
    ReachesAlignment(asked, Extended(addr, length), agent, sent, limit, top);
    FillChains(asked, Extended(addr, length), agent, sent, limit, top);
    forall x: U64 | addr <= x < addr + length ensures Covers(added, x) {
      ChainCovers(asked, added, x);
    }
  }

  // ----- Past the alignment it may

  /** The block of twice the alignment around a page, and pages everywhere else. */
  function AroundAgent(page: U64): Agent
    requires page > 0 && page + Alignment(page) < W64
  {
    BlockAgent(page - Alignment(page), page + Alignment(page), 2 * Alignment(page))
  }

  lemma AroundIsBlock(page: U64)
    requires page > 0 && page % 4096 == 0 && page + Alignment(page) < W64
    ensures PAGE <= Alignment(page) <= page
    ensures Block(page - Alignment(page), page + Alignment(page), 2 * Alignment(page))
  {
    var a := Alignment(page);
    AlignmentDivides(page);
    PageIsPow2();
    PowerDividesAlignment(page, PAGE);
    OddMultiple(page, a);
    AboveOddMultiple(page, a);
    assert IsPow2(2 * a) by {
      assert 2 * a / 2 == a;
    }
  }

  lemma AboveOddMultiple(n: nat, a: nat)
    requires a > 0 && n % (2 * a) == a
    ensures (n + a) % (2 * a) == 0
  {
    assert n + a == 2 * a * (n / (2 * a) + 1);
    Arith.DivModUnique(n + a, 2 * a, n / (2 * a) + 1, 0);
  }

  /** A block and pages outside it form a partition. */
  lemma BlockPartitioned(end: nat, size: U64, top: U64)
    requires size <= end && Block(end - size, end, size)
    ensures Partitioned(BlockAgent(end - size, end, size), top)
  {
    hide IsPow2;
    var agent := BlockAgent(end - size, end, size);
    PageMultiple(end, size);
    BlockBelow(end, size);
    PageMultiple(end - size, size);
    forall k: nat, a: U64, j: nat, b: U64 | a % 4096 == 0 && a < top && b % 4096 == 0 && b < top
      && agent(k, a).Granted? && agent(j, b).Granted?
      ensures SameExtent(ReplyRegion(a, agent(k, a)), ReplyRegion(b, agent(j, b)))
              || Apart(ReplyRegion(a, agent(k, a)), ReplyRegion(b, agent(j, b)))
    {
      BlockReplies(end, size, k, a);
      BlockReplies(end, size, j, b);
      PagesApart(a, b);
      PagesApart(a, end);
      PagesApart(a, end - size);
      PagesApart(b, end);
      PagesApart(b, end - size);
    }
  }

  lemma BlockReplies(end: nat, size: U64, k: nat, a: U64)
    requires size <= end && Block(end - size, end, size)
    requires a % 4096 == 0 && BlockAgent(end - size, end, size)(k, a).Granted?
    ensures ReplyRegion(a, BlockAgent(end - size, end, size)(k, a)) ==
            if end - size <= a < end then Region(end - size, 0, size, {}) else Region(a, 0, 4096, {})
  {
    hide IsPow2;
    if end - size <= a < end {
      BlockAnswer(end - size, end, size, k, a);
    } else {
      PageAnswer(end - size, end, size, k, a);
    }
  }

  lemma PagesApart(a: nat, b: nat)
    requires a % 4096 == 0 && b % 4096 == 0
    ensures a == b || a + 4096 <= b || b + 4096 <= a
  {
  }

  lemma PastAlignmentMisses(addr: U64, length: U64, top: U64)
    requires addr + length <= top && !WithinAlignment(addr, length) && 0 < length
    ensures !AlwaysCoversPartitioned(addr, length, top)
  {
    hide And, IsPow2;
    PagePlain(addr, length);
    var page, left := PageOf(addr), Extended(addr, length);
    var a := Alignment(page);
    AroundIsBlock(page);
    BlockAgentSound(page - a, page + a, 2 * a, top);
    BlockPartitioned(page + a, 2 * a, top);
    FromInsideBlock(page, left, page - a, page + a, 2 * a, 0, left);
    LastByteMissed(addr, length, AroundAgent(page), left, top);
  }

  /** With replies from one partition, a request loop that finishes is sure to have cached its
      whole range exactly when the range starts in page 0, or ends before the next address aligned
      better than its first page. */
  lemma AlwaysCoversPartitionedIff(addr: U64, length: U64, top: U64)
    requires addr + length <= top
    ensures AlwaysCoversPartitioned(addr, length, top) <==> length == 0 || WithinAlignment(addr, length)
  {
    if length == 0 || WithinAlignment(addr, length) {
      forall agent: Agent, sent: nat, limit: nat
        | Sound(agent, top) && Partitioned(agent, top) && Request(addr, length, agent, sent, limit).done
        ensures CoversAll(Request(addr, length, agent, sent, limit).added, addr, length)
      {
        if length > 0 {
          AlignedIsCovered(addr, length, agent, sent, limit, top);
        }
      }
    } else {
      PastAlignmentMisses(addr, length, top);
    }
  }
}
