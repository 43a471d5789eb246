/** Which ranges a finished request loop is sure to have cached, whatever the agent answers. */
module AtcCoverage {
  import Arith
  import opened Bits
  import opened AtcRegions
  import opened AtcRequests

  /** Every finished request loop for the range, with any sound agent, has cached all of it. */
  ghost predicate AlwaysCovers(addr: U64, length: U64, top: U64) {
    forall agent: Agent, sent: nat, limit: nat ::
      Sound(agent, top) && Request(addr, length, agent, sent, limit).done ==>
        CoversAll(Request(addr, length, agent, sent, limit).added, addr, length)
  }

  ghost predicate CoversAll(added: seq<Region>, addr: U64, length: U64) {
    forall x: U64 :: addr <= x < addr + length ==> Covers(added, x)
  }

  /** The range is empty or lies in one aligned block of two pages. */
  predicate InOneBlock(addr: U64, length: U64) {
    length == 0 || addr / 8192 == (addr + length - 1) / 8192
  }

  // ----- Inside a block rounding down does no harm

  /** What is left of a block: one page, or both pages from the block's start. */
  predicate BlockRest(asked: U64, length: U64) {
    asked % 4096 == 0 && (length <= 4096 || (asked % 8192 == 0 && length <= 8192))
  }

  lemma BlockStart(addr: U64, length: U64)
    requires 0 < length && addr + length < W64 && InOneBlock(addr, length)
    ensures BlockRest(addr - addr % 4096, length + addr % 4096)
  {
    PageInBlock(addr);
    assert addr + length - 1 < 8192 * (addr / 8192) + 8192;
  }

  /** The page of an address is the first or the second of its block. */
  lemma PageInBlock(addr: nat)
    ensures var page := addr - addr % 4096;
            && page % 4096 == 0
            && page in {addr / 8192 * 8192, addr / 8192 * 8192 + 4096}
            && (page % 8192 == 0 <==> page == addr / 8192 * 8192)
  {
    var b, o := addr / 8192, addr % 8192;
    assert addr == 8192 * b + o;
    if o < 4096 {
      Arith.DivModUnique(addr, 4096, 2 * b, o);
    } else {
      Arith.DivModUnique(addr, 4096, 2 * b + 1, o - 4096);
    }
  }

  /** A page-sized region around an aligned address starts at it. */
  lemma PageStartsAt(asked: U64, r: Region)
    requires asked % 4096 == 0 && r.Natural() && r.length == PAGE && r.virt <= asked < r.virt + r.length
    ensures r.virt == asked && (asked + PAGE) % 4096 == 0
  {
    PageAligned(r);
    hide Region.Natural;
    NextPage(asked, r.virt, r.length);
  }

  /** A granted region reaches the end of the block, or is the block's first page. */
  lemma BlockReply(asked: U64, length: U64, r: Region)
    requires BlockRest(asked, length) && length > 0 && r.Natural()
    requires r.virt <= asked && asked + PAGE <= r.virt + r.length
    ensures asked + length <= r.virt + r.length
            || (r.length == PAGE && r.virt + r.length == asked + PAGE && BlockRest(asked + PAGE, length - PAGE))
  {
    if length > 4096 {
      assert asked % 4096 == 0 && asked % 8192 == 0 && length <= 8192;
      assert PAGE <= r.length;
      hide Region.Natural, BlockRest;
      if r.length == PAGE {
        PageStartsAt(asked, r);
        PageIsRest(asked + PAGE, length - PAGE);
      } else {
        LargeRegionHoldsBlock(asked, r);
      }
    }
  }

  lemma PageIsRest(asked: U64, length: U64)
    requires asked % 4096 == 0 && length <= 4096
    ensures BlockRest(asked, length)
  {
  }

  lemma LargeRegionHoldsBlock(asked: U64, r: Region)
    requires asked % 8192 == 0 && r.Natural() && r.length > PAGE && r.virt <= asked < r.virt + r.length
    ensures asked + 8192 <= r.virt + r.length
  {
    hide And, IsPow2;
    AboveOnePage(r.length);
    BlockIsPow2();
    LargerIsMultiple(8192, r.length);
    ModOfMultiple(r.virt, 8192, r.length);
    NextBlock(asked, r.virt, r.length);
  }

  lemma NextBlock(asked: int, virt: int, length: int)
    requires asked % 8192 == 0 && virt % 8192 == 0 && length % 8192 == 0 && asked < virt + length
    ensures asked + 8192 <= virt + length
  {
  }

  lemma BlockIsPow2()
    ensures IsPow2(8192)
  {
    assert IsPow2(8192 / 2 / 2 / 2 / 2 / 2 / 2);
  }

  /** The next power of two above a page is two pages. */
  lemma AboveOnePage(n: nat)
    requires IsPow2(n) && n > 4096
    ensures n >= 8192
  {
    PageIsPow2();
    LargerIsMultiple(4096, n);
  }

  /** The chain ends no earlier than the region just granted. */
  lemma EndsAfterGrant(asked: U64, length: U64, agent: Agent, sent: nat, limit: nat, top: U64)
    requires asked % 4096 == 0 && 0 < length && asked + length <= top && sent < limit
    requires Sound(agent, top) && agent(sent, asked).Granted?
    ensures var r := ReplyRegion(asked, agent(sent, asked));
            r.virt + r.length <= ChainEnd(asked, Fill(asked, length, agent, sent, limit).added)
  {
    hide And, IsPow2;
    NextAsked(asked, length, agent, sent, top);
    var r := ReplyRegion(asked, agent(sent, asked));
    GrantedEnd(asked, length, agent, sent, limit, r);
    if r.length <= length {
      var next: U64 := r.virt + r.length;
      FillChains(next, length - r.length, agent, sent + 1, limit, top);
      ChainGrows(next, Fill(next, length - r.length, agent, sent + 1, limit).added);
    }
  }

  lemma {:induction false} BlockIsReached(
    asked: U64, length: U64, agent: Agent, sent: nat, limit: nat, top: U64)
    requires BlockRest(asked, length) && asked + length <= top && Sound(agent, top)
    requires Fill(asked, length, agent, sent, limit).done
    ensures asked + length <= ChainEnd(asked, Fill(asked, length, agent, sent, limit).added)
    decreases limit - sent
  {
    hide And, IsPow2;
    if length > 0 {
      var g := agent(sent, asked);
      if g.Refused? {
        BlockIsReached(asked, length, agent, sent + 1, limit, top);
      } else {
        var r := ReplyRegion(asked, g);
        NextAsked(asked, length, agent, sent, top);
        BlockReply(asked, length, r);
        EndsAfterGrant(asked, length, agent, sent, limit, top);
        if r.virt + r.length < asked + length {
          GrantedEnd(asked, length, agent, sent, limit, r);
          BlockIsReached(asked + PAGE, length - PAGE, agent, sent + 1, limit, top);
        }
      }
    }
  }

  lemma BlockIsCovered(addr: U64, length: U64, agent: Agent, sent: nat, limit: nat, top: U64)
    requires 0 < length && addr + length <= top && InOneBlock(addr, length) && Sound(agent, top)
    requires Request(addr, length, agent, sent, limit).done
    ensures CoversAll(Request(addr, length, agent, sent, limit).added, addr, length)
  {
    hide And, IsPow2;
    PagePlain(addr, length);
    BlockStart(addr, length);
    var asked, added := PageOf(addr), Request(addr, length, agent, sent, limit).added;
    BlockIsReached(asked, Extended(addr, length), agent, sent, limit, top);
    FillChains(asked, Extended(addr, length), agent, sent, limit, top);
    forall x: U64 | addr <= x < addr + length ensures Covers(added, x) {
      ChainCovers(asked, added, x);
    }
  }

  // ----- Agents that answer page by page but for one block

  /** An agent that maps page by page, except that it answers for the addresses of `[from, end)`
      with the `size` bytes that end at `end`. */
  function BlockAgent(from: nat, end: nat, size: U64): Agent {
    (k: nat, a: U64) =>
      if from <= a < end then Granted(0, size, {})
      else if a < W64 - 4096 then Granted(0, 4096, {})
      else Refused
  }

  /** The block is a natural region that holds the addresses it answers for. */
  predicate Block(from: nat, end: nat, size: U64) {
    IsPow2(size) && PAGE <= size && end % size == 0 && size <= end < W64 && end - size <= from <= end
  }

  lemma PageAnswer(from: nat, end: nat, size: U64, k: nat, a: U64)
    requires a % 4096 == 0 && a < W64 - 4096 && !(from <= a < end)
    ensures BlockAgent(from, end, size)(k, a).Granted?
    ensures ReplyRegion(a, BlockAgent(from, end, size)(k, a)) == Region(a, 0, 4096, {})
    ensures Region(a, 0, 4096, {}).Natural()
  {
    PageIsPow2();
    AlignDownContains(a, 4096);
  }

  lemma BlockAnswer(from: nat, end: nat, size: U64, k: nat, a: U64)
    requires Block(from, end, size) && from <= a < end
    ensures BlockAgent(from, end, size)(k, a).Granted?
    ensures ReplyRegion(a, BlockAgent(from, end, size)(k, a)) == Region(end - size, 0, size, {})
    ensures Region(end - size, 0, size, {}).Natural()
  {
    hide And, IsPow2;
    BlockBelow(end, size);
    AlignDownContains(a, size);
    Arith.RemainderAbove(end - size, a, size);
    Arith.DivModUnique(0, size, 0, 0);
  }

  lemma BlockBelow(end: nat, size: U64)
    requires 0 < size <= end && end % size == 0
    ensures (end - size) % size == 0
  {
    var q := end / size;
    assert end - size == size * (q - 1);
    Arith.DivModUnique(end - size, size, q - 1, 0);
  }

  lemma BlockAgentSound(from: nat, end: nat, size: U64, top: U64)
    requires Block(from, end, size)
    ensures Sound(BlockAgent(from, end, size), top)
  {
    hide IsPow2;
    forall k: nat, a: U64 | a % 4096 == 0 && a < top
      ensures BlockAgent(from, end, size)(k, a).Granted? ==>
                ReplyRegion(a, BlockAgent(from, end, size)(k, a)).Natural()
    {
      if from <= a < end {
        BlockAnswer(from, end, size, k, a);
      } else if a < W64 - 4096 {
        PageAnswer(from, end, size, k, a);
      }
    }
  }

  /** One granted reply of the loop, without the wrap-around. */
  lemma FillGrant(asked: U64, length: U64, agent: Agent, sent: nat, limit: nat, r: Region)
    requires 0 < length && sent < limit && agent(sent, asked).Granted?
    requires r == ReplyRegion(asked, agent(sent, asked)) && r.virt + r.length < W64
    ensures var f := Fill(asked, length, agent, sent, limit);
            if r.length > length then f == Filled([r], sent + 1, true)
            else
              var rest := Fill(r.virt + r.length, length - r.length, agent, sent + 1, limit);
              f == rest.(added := [r] + rest.added)
  {
    AddPlain(r.virt, r.length);
  }

  /** What a page-sized or a block-sized answer does to the end of the chain. */
  lemma GrantedEnd(asked: U64, length: U64, agent: Agent, sent: nat, limit: nat, r: Region)
    requires 0 < length && sent < limit && agent(sent, asked).Granted?
    requires r == ReplyRegion(asked, agent(sent, asked)) && r.virt + r.length < W64
    ensures var f := Fill(asked, length, agent, sent, limit);
            var next := r.virt + r.length;
            if r.length > length then f.done && ChainEnd(asked, f.added) == next
            else
              var rest := Fill(next, length - r.length, agent, sent + 1, limit);
              f.done == rest.done && ChainEnd(asked, f.added) == ChainEnd(next, rest.added)
  {
    hide And, IsPow2;
    FillGrant(asked, length, agent, sent, limit, r);
    if r.length <= length {
      var rest := Fill(r.virt + r.length, length - r.length, agent, sent + 1, limit);
      assert ([r] + rest.added)[1..] == rest.added;
    }
  }

  /** The loop at a page, and at the block, in terms of the rest of it. */
  lemma PageStep(asked: U64, length: U64, from: nat, end: nat, size: U64, sent: nat, limit: nat)
    requires asked % 4096 == 0 && asked < W64 - 4096 && !(from <= asked < end) && 0 < length && sent < limit
    ensures var f := Fill(asked, length, BlockAgent(from, end, size), sent, limit);
            if 4096 > length then f.done && ChainEnd(asked, f.added) == asked + 4096
            else
              var rest := Fill(asked + 4096, length - 4096, BlockAgent(from, end, size), sent + 1, limit);
              f.done == rest.done && ChainEnd(asked, f.added) == ChainEnd(asked + 4096, rest.added)
  {
    hide And, IsPow2;
    PageAnswer(from, end, size, sent, asked);
    GrantedEnd(asked, length, BlockAgent(from, end, size), sent, limit, Region(asked, 0, 4096, {}));
  }

  lemma BlockStep(asked: U64, length: U64, from: nat, end: nat, size: U64, sent: nat, limit: nat)
    requires Block(from, end, size) && from <= asked < end && 0 < length && sent < limit
    ensures var f := Fill(asked, length, BlockAgent(from, end, size), sent, limit);
            if size > length then f.done && ChainEnd(asked, f.added) == end
            else
              var rest := Fill(end, length - size, BlockAgent(from, end, size), sent + 1, limit);
              f.done == rest.done && ChainEnd(asked, f.added) == ChainEnd(end, rest.added)
  {
    hide And, IsPow2;
    BlockAnswer(from, end, size, sent, asked);
    GrantedEnd(asked, length, BlockAgent(from, end, size), sent, limit, Region(end - size, 0, size, {}));
  }

  /** Above the block the loop ends less than a page past its range. */
  lemma {:induction false} PageByPage(asked: U64, length: U64, from: nat, end: nat, size: U64, sent: nat, limit: nat)
    requires asked % 4096 == 0 && end <= asked && asked + length <= W64 - 4096 && length <= limit - sent
    ensures var f := Fill(asked, length, BlockAgent(from, end, size), sent, limit);
            f.done && ChainEnd(asked, f.added) < asked + length + 4096
    decreases length
  {
    hide And, IsPow2, BlockAgent;
    if length > 0 {
      PageStep(asked, length, from, end, size, sent, limit);
      if length >= 4096 {
        PageByPage(asked + 4096, length - 4096, from, end, size, sent + 1, limit);
      }
    }
  }

  /** Asked for inside the block, at least a page above its start: what the reply was rounded down
      by is missing at the end of a range that goes past the block. */
  lemma FromInsideBlock(asked: U64, length: U64, from: nat, end: nat, size: U64, sent: nat, limit: nat)
    requires Block(from, end, size) && from <= asked < end < asked + length < W64
    requires end - size + PAGE <= asked && length <= limit - sent
    ensures var f := Fill(asked, length, BlockAgent(from, end, size), sent, limit);
            f.done && ChainEnd(asked, f.added) < asked + length
  {
    hide Fill, ChainEnd, BlockAgent, IsPow2;
    BlockStep(asked, length, from, end, size, sent, limit);
    if length >= size {
      PageMultiple(end, size);
      PageByPage(end, length - size, from, end, size, sent + 1, limit);
    }
  }

  lemma PageMultiple(x: nat, size: U64)
    requires IsPow2(size) && PAGE <= size && x % size == 0
    ensures x % 4096 == 0
  {
    PageIsPow2();
    LargerIsMultiple(PAGE, size);
    ModOfMultiple(x, PAGE, size);
    Arith.DivModUnique(0, 4096, 0, 0);
  }

  // ----- Across a block boundary rounding down may lose the end

  /** Page by page, except that page `odd` is answered with the two pages ending there. */
  function OddPageAgent(odd: U64): Agent { BlockAgent(odd, odd + 4096, 8192) }

  lemma OddPageBlock(odd: U64)
    requires odd % 8192 == 4096 && odd + 4096 < W64
    ensures Block(odd, odd + 4096, 8192)
  {
    BlockIsPow2();
    hide IsPow2;
    assert odd == 8192 * (odd / 8192) + 4096;
  }

  lemma BlockPages(start: nat)
    requires start % 8192 == 0
    ensures start % 4096 == 0 && (start + 4096) % 8192 == 4096 && (start + 8192) % 4096 == 0
  {
  }

  lemma FromOddPage(odd: U64, length: U64, sent: nat, limit: nat)
    requires odd % 8192 == 4096 && 4096 < length && odd + length < W64 && length <= limit - sent
    ensures var f := Fill(odd, length, OddPageAgent(odd), sent, limit);
            f.done && ChainEnd(odd, f.added) < odd + length
  {
    OddPageBlock(odd);
    FromInsideBlock(odd, length, odd, odd + 4096, 8192, sent, limit);
  }

  lemma FromBlockStart(start: U64, length: U64, sent: nat, limit: nat)
    requires start % 8192 == 0 && 8192 < length && start + length < W64 && length <= limit - sent
    ensures var f := Fill(start, length, OddPageAgent(start + 4096), sent, limit);
            f.done && ChainEnd(start, f.added) < start + length
  {
    hide Fill, ChainEnd, BlockAgent;
    BlockPages(start);
    PageStep(start, length, start + 4096, start + 8192, 8192, sent, limit);
    FromOddPage(start + 4096, length - 4096, sent + 1, limit);
  }

  /** A loop over pages that go past the block of the first one. */
  lemma PastBlockMisses(asked: U64, length: U64, start: U64)
    requires start % 8192 == 0 && asked in {start, start + 4096} && start + 8192 < asked + length < W64
    ensures var f := Fill(asked, length, OddPageAgent(start + 4096), 0, length);
            f.done && ChainEnd(asked, f.added) < asked + length
  {
    if asked == start {
      FromBlockStart(start, length, 0, length);
    } else {
      FromOddPage(asked, length, 0, length);
    }
  }

  /** A range across a block boundary, and a run that finishes without its last byte. */
  lemma CrossingMisses(addr: U64, length: U64, top: U64)
    requires addr + length <= top && !InOneBlock(addr, length)
    ensures !AlwaysCovers(addr, length, top)
  {
    hide And, IsPow2;
    var start: U64 := addr / 8192 * 8192;
    var agent, asked, left := OddPageAgent(start + 4096), PageOf(addr), Extended(addr, length);
    PagePlain(addr, length);
    PageInBlock(addr);
    OddPageBlock(start + 4096);
    BlockAgentSound(start + 4096, start + 8192, 8192, top);
    CrossesBlock(addr, length);
    PastBlockMisses(asked, left, start);
    LastByteMissed(addr, length, agent, left, top);
  }

  lemma CrossesBlock(addr: U64, length: U64)
    requires !InOneBlock(addr, length)
    ensures addr / 8192 * 8192 + 8192 < addr + length
  {
    var b := addr / 8192;
    if addr + length - 1 < 8192 * b + 8192 {
      Arith.DivModUnique(addr + length - 1, 8192, b, addr + length - 1 - 8192 * b);
    }
  }

  lemma LastByteMissed(addr: U64, length: U64, agent: Agent, limit: nat, top: U64)
    requires length > 0 && addr + length <= top && Sound(agent, top)
    requires var f := Request(addr, length, agent, 0, limit);
             f.done && ChainEnd(PageOf(addr), f.added) < addr + length
    ensures !CoversAll(Request(addr, length, agent, 0, limit).added, addr, length)
  {
    hide And, IsPow2;
    PagePlain(addr, length);
    var added := Request(addr, length, agent, 0, limit).added;
    FillChains(PageOf(addr), Extended(addr, length), agent, 0, limit, top);
    var last: U64 := addr + length - 1;
    ChainCovers(PageOf(addr), added, last);
    assert !Covers(added, last);
  }

  /** A request loop that finishes is sure to have cached its whole range exactly when the range
      lies in one aligned block of 8 KiB. */
  lemma AlwaysCoversIff(addr: U64, length: U64, top: U64)
    requires addr + length <= top
    ensures AlwaysCovers(addr, length, top) <==> InOneBlock(addr, length)
  {
    if InOneBlock(addr, length) {
      forall agent: Agent, sent: nat, limit: nat
        | Sound(agent, top) && Request(addr, length, agent, sent, limit).done
        ensures CoversAll(Request(addr, length, agent, sent, limit).added, addr, length)
      {
        if length > 0 {
          BlockIsCovered(addr, length, agent, sent, limit, top);
        }
      }
    } else {
      CrossingMisses(addr, length, top);
    }
  }
}
