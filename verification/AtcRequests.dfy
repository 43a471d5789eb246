/** The request loop of the cache: pages are asked for until the range is used up, every reply
    adds a region, refused requests are sent again. */
module AtcRequests {
  import opened Bits
  import opened AtcRegions
  import opened AtcHost

  /** The outcome of one translation request. */
  datatype Reply = Granted(phys: U64, length: U64, attrs: set<Attr>) | Refused

  /** The translation agent: how the `k`-th request of the device's life is answered when it
      asks for a given address. Answers may differ from request to request. */
  type Agent = (nat, U64) -> Reply

  /** The state of a request loop when it ends, or when `limit` requests have been sent. */
  datatype Filled = Filled(added: seq<Region>, sent: nat, done: bool)

  function ReplyRegion(asked: U64, g: Reply): Region
    requires g.Granted?
  {
    Region(AlignDown(asked, g.length), g.phys, g.length, g.attrs)
  }

  /** The loop from `asked` with `length` still to go. */
  function Fill(asked: U64, length: U64, agent: Agent, sent: nat, limit: nat): Filled
    decreases limit - sent
  {
    if length == 0 then Filled([], sent, true)
    else if sent >= limit then Filled([], sent, false)
    else
      var g := agent(sent, asked);
      if g.Refused? then Fill(asked, length, agent, sent + 1, limit)
      else if g.length > length then Filled([ReplyRegion(asked, g)], sent + 1, true)
      else
        var rest := Fill(Add64(AlignDown(asked, g.length), g.length), length - g.length, agent, sent + 1, limit);
        rest.(added := [ReplyRegion(asked, g)] + rest.added)
  }

  /** The page of the range's first byte. */
  function PageOf(addr: U64): U64 { And(addr, Not64(PAGE - 1)) }

  /** The range length, extended to the start of its first page. */
  function Extended(addr: U64, length: U64): U64 { Add64(length, And(addr, PAGE - 1)) }

  function Request(addr: U64, length: U64, agent: Agent, sent: nat, limit: nat): Filled {
    Fill(PageOf(addr), Extended(addr, length), agent, sent, limit)
  }

  lemma PagePlain(addr: U64, length: U64)
    requires addr + length < W64
    ensures PageOf(addr) == addr - addr % 4096 && PageOf(addr) % 4096 == 0
    ensures Extended(addr, length) == length + addr % 4096
    ensures PageOf(addr) + Extended(addr, length) == addr + length
  {
    hide And, IsPow2;
    PageIsPow2();
    HighBits(addr, PAGE);
    LowBits(addr, PAGE);
  }

  /** Every region added is one granted reply as it came: its length, its physical address and its
      attributes, at the multiple of the length below an address asked for. */
  lemma {:induction false} FillAddsReplies(asked: U64, length: U64, agent: Agent, sent: nat, limit: nat, r: Region)
    requires r in Fill(asked, length, agent, sent, limit).added
    ensures exists k: nat, a: U64 ::
              agent(k, a) == Granted(r.phys, r.length, r.attrs) && r.virt == AlignDown(a, r.length)
    decreases limit - sent
  {
    hide AlignDown;
    var g := agent(sent, asked);
    if g.Refused? {
      FillAddsReplies(asked, length, agent, sent + 1, limit, r);
    } else if r == ReplyRegion(asked, g) {
      assert agent(sent, asked) == Granted(r.phys, r.length, r.attrs);
    } else {
      FillAddsReplies(Add64(AlignDown(asked, g.length), g.length), length - g.length, agent, sent + 1, limit, r);
    }
  }

  // ----- Assumptions on the agent, for requests below `top`

  /** Whatever is granted is a naturally aligned power of two of at least a page. */
  ghost predicate Sound(agent: Agent, top: U64) {
    forall k: nat, a: U64 | a % 4096 == 0 && a < top ::
      agent(k, a).Granted? ==> ReplyRegion(a, agent(k, a)).Natural()
  }

  /** No request is refused for ever. */
  ghost predicate Answers(agent: Agent, top: U64) {
    forall k: nat, a: U64 | a % 4096 == 0 && a < top :: AnsweredFrom(agent, k, a)
  }

  ghost predicate AnsweredFrom(agent: Agent, k: nat, a: U64) {
    exists j: nat :: k <= j && agent(j, a).Granted?
  }

  /** Whatever is granted is current in the host's map. */
  ghost predicate Current(agent: Agent, host: HostMap, top: U64) {
    forall k: nat, a: U64 | a % 4096 == 0 && a < top ::
      agent(k, a).Granted? ==> Agrees(host, ReplyRegion(a, agent(k, a)))
  }

  // ----- One granted reply

  /** Where the loop asks next, and that it stays within its range. */
  lemma NextAsked(asked: U64, length: U64, agent: Agent, sent: nat, top: U64)
    requires asked % 4096 == 0 && 0 < length && asked + length <= top
    requires Sound(agent, top) && agent(sent, asked).Granted?
    ensures var r := ReplyRegion(asked, agent(sent, asked));
            && r.Natural() && r.virt <= asked < r.virt + r.length && asked + PAGE <= r.virt + r.length
            && Add64(r.virt, r.length) == r.virt + r.length
            && (r.virt + r.length) % 4096 == 0
            && r.virt + r.length + (length - r.length) <= top
  {
    var r := ReplyRegion(asked, agent(sent, asked));
    assert r.Natural();
    AlignDownContains(asked, r.length);
    PageAligned(r);
    NextPage(asked, r.virt, r.length);
  }

  lemma NextPage(asked: int, virt: int, length: int)
    requires asked % 4096 == 0 && virt % 4096 == 0 && length % 4096 == 0 && asked < virt + length
    ensures asked + PAGE <= virt + length && (virt + length) % 4096 == 0
  {
  }

  // ----- Termination

  lemma {:induction false} FillMonotone(asked: U64, length: U64, agent: Agent, sent: nat, limit: nat, more: nat)
    requires limit <= more && Fill(asked, length, agent, sent, limit).done
    ensures Fill(asked, length, agent, sent, more) == Fill(asked, length, agent, sent, limit)
    decreases limit - sent
  {
    if length > 0 {
      var g := agent(sent, asked);
      if g.Refused? {
        FillMonotone(asked, length, agent, sent + 1, limit, more);
      } else if g.length <= length {
        FillMonotone(Add64(AlignDown(asked, g.length), g.length), length - g.length, agent, sent + 1, limit, more);
      }
    }
  }

  /** Refusals only delay: the loop goes on as if it had started with the granted request. */
  lemma {:induction false} RefusalsOnlyDelay(
    asked: U64, length: U64, agent: Agent, sent: nat, granted: nat, limit: nat)
    requires 0 < length && sent <= granted <= limit
    requires forall k :: sent <= k < granted ==> agent(k, asked).Refused?
    ensures Fill(asked, length, agent, sent, limit) == Fill(asked, length, agent, granted, limit)
    decreases granted - sent
  {
    if sent < granted {
      assert agent(sent, asked).Refused?;
      RefusalsOnlyDelay(asked, length, agent, sent + 1, granted, limit);
    }
  }

  lemma {:induction false} FirstGrant(agent: Agent, asked: U64, k: nat, j: nat) returns (first: nat)
    requires k <= j && agent(j, asked).Granted?
    ensures k <= first && agent(first, asked).Granted?
    ensures forall i :: k <= i < first ==> agent(i, asked).Refused?
    decreases j - k
  {
    if agent(k, asked).Granted? {
      first := k;
    } else {
      first := FirstGrant(agent, asked, k + 1, j);
    }
  }

  lemma NextGrant(agent: Agent, asked: U64, sent: nat, top: U64) returns (first: nat)
    requires Answers(agent, top) && asked % 4096 == 0 && asked < top
    ensures sent <= first && agent(first, asked).Granted?
    ensures forall i :: sent <= i < first ==> agent(i, asked).Refused?
  {
    assert AnsweredFrom(agent, sent, asked);
    var j :| sent <= j && agent(j, asked).Granted?;
    first := FirstGrant(agent, asked, sent, j);
  }

  /** A granted request ends the loop or leaves the rest of the range to it. */
  lemma GrantEndsOrAdvances(asked: U64, length: U64, agent: Agent, sent: nat, limit: nat, top: U64)
    requires asked % 4096 == 0 && 0 < length && asked + length <= top && sent < limit
    requires Sound(agent, top) && agent(sent, asked).Granted?
    ensures var r := ReplyRegion(asked, agent(sent, asked));
            Fill(asked, length, agent, sent, limit).done <==>
            r.length > length || Fill(r.virt + r.length, length - r.length, agent, sent + 1, limit).done
  {
    NextAsked(asked, length, agent, sent, top);
  }

  lemma DoneFromGrant(
    asked: U64, length: U64, agent: Agent, sent: nat, first: nat, limit: nat, top: U64, r: Region)
    requires asked % 4096 == 0 && 0 < length && asked + length <= top && sent <= first < limit
    requires Sound(agent, top) && agent(first, asked).Granted? && r == ReplyRegion(asked, agent(first, asked))
    requires forall k :: sent <= k < first ==> agent(k, asked).Refused?
    requires r.virt + r.length < W64
    requires r.length <= length ==> Fill(r.virt + r.length, length - r.length, agent, first + 1, limit).done
    ensures Fill(asked, length, agent, sent, limit).done
  {
    RefusalsOnlyDelay(asked, length, agent, sent, first, limit);
    GrantEndsOrAdvances(asked, length, agent, first, limit, top);
  }

  /** Some observation of the loop is long enough to see it done. */
  lemma {:induction false} FillEnds(asked: U64, length: U64, agent: Agent, sent: nat, top: U64)
    returns (limit: nat)
    requires asked % 4096 == 0 && asked + length <= top
    requires Sound(agent, top) && Answers(agent, top)
    ensures sent <= limit && Fill(asked, length, agent, sent, limit).done
    decreases length
  {
    hide And, IsPow2, Sound, Answers;
    limit := sent;
    if length > 0 {
      var first := NextGrant(agent, asked, sent, top);
      NextAsked(asked, length, agent, first, top);
      var r := ReplyRegion(asked, agent(first, asked));
      limit := first + 1;
      if r.length <= length {
        limit := FillEnds(r.virt + r.length, length - r.length, agent, first + 1, top);
      }
      DoneFromGrant(asked, length, agent, sent, first, limit, top, r);
    }
  }

  /** The loop ends: enough requests exist after which it is done, for good. */
  lemma FillTerminates(asked: U64, length: U64, agent: Agent, sent: nat, top: U64) returns (limit: nat)
    requires asked % 4096 == 0 && asked + length <= top
    requires Sound(agent, top) && Answers(agent, top)
    ensures sent <= limit
    ensures forall more: nat | limit <= more :: Fill(asked, length, agent, sent, more).done
  {
    limit := FillEnds(asked, length, agent, sent, top);
    hide Fill;
    forall more: nat | limit <= more ensures Fill(asked, length, agent, sent, more).done {
      FillMonotone(asked, length, agent, sent, limit, more);
    }
  }

  // ----- Coverage

  /** Regions added one after the other, each containing the address asked for: where the
      previous one ended. */
  ghost predicate Chained(asked: int, added: seq<Region>)
    decreases |added|
  {
    added == [] ||
    (added[0].Natural() && added[0].virt <= asked && asked + PAGE <= added[0].virt + added[0].length
     && Chained(added[0].virt + added[0].length, added[1..]))
  }

  /** Where the last region ends. */
  function ChainEnd(asked: int, added: seq<Region>): int
    decreases |added|
  {
    if added == [] then asked else ChainEnd(added[0].virt + added[0].length, added[1..])
  }

  function TotalLength(added: seq<Region>): int {
    if added == [] then 0 else added[0].length + TotalLength(added[1..])
  }

  /** How far the addresses asked for were rounded down, summed over all replies. */
  function RoundingLoss(asked: int, added: seq<Region>): int
    decreases |added|
  {
    if added == [] then 0
    else asked - added[0].virt + RoundingLoss(added[0].virt + added[0].length, added[1..])
  }

  lemma {:induction false} ChainLength(asked: int, added: seq<Region>)
    ensures ChainEnd(asked, added) == asked + TotalLength(added) - RoundingLoss(asked, added)
    decreases |added|
  {
    if added != [] {
      ChainLength(added[0].virt + added[0].length, added[1..]);
    }
  }

  lemma {:induction false} ChainGrows(asked: int, added: seq<Region>)
    requires Chained(asked, added)
    ensures asked <= ChainEnd(asked, added)
    decreases |added|
  {
    if added != [] {
      ChainGrows(added[0].virt + added[0].length, added[1..]);
    }
  }

  /** From the first address asked for upwards, a chain covers exactly what lies below its end. */
  lemma {:induction false} ChainCovers(asked: int, added: seq<Region>, addr: U64)
    requires Chained(asked, added) && asked <= addr
    ensures Covers(added, addr) <==> addr < ChainEnd(asked, added)
    decreases |added|
  {
    if added != [] {
      var r := added[0];
      assert added == [r] + added[1..];
      CoversAppend([r], added[1..], addr);
      CoversOne(r, addr);
      NaturalContains(r, addr);
      ChainGrows(r.virt + r.length, added[1..]);
      if r.virt + r.length <= addr {
        ChainCovers(r.virt + r.length, added[1..], addr);
      }
    }
  }

  lemma CoversOne(r: Region, addr: U64)
    ensures Covers([r], addr) <==> r.Contains(addr)
  {
    assert r in [r];
  }

  /** The loop adds a chain from the page asked for, at least as long as the range once done. */
  lemma {:induction false} FillChains(asked: U64, length: U64, agent: Agent, sent: nat, limit: nat, top: U64)
    requires asked % 4096 == 0 && asked + length <= top && Sound(agent, top)
    ensures var f := Fill(asked, length, agent, sent, limit);
            && Chained(asked, f.added)
            && (f.done ==> TotalLength(f.added) >= length)
            && (forall r :: r in f.added ==> r.Natural())
    decreases limit - sent
  {
    hide And, IsPow2;
    if length > 0 && sent < limit {
      var g := agent(sent, asked);
      if g.Refused? {
        FillChains(asked, length, agent, sent + 1, limit, top);
      } else {
        NextAsked(asked, length, agent, sent, top);
        var r := ReplyRegion(asked, g);
        if r.length <= length {
          FillChains(r.virt + r.length, length - r.length, agent, sent + 1, limit, top);
        }
      }
    }
  }

  /** A finished request loop caches the first byte asked for. */
  lemma RequestCachesFirst(addr: U64, length: U64, agent: Agent, sent: nat, limit: nat, top: U64)
    requires 0 < length && addr + length <= top && Sound(agent, top)
    requires Request(addr, length, agent, sent, limit).done
    ensures Covers(Request(addr, length, agent, sent, limit).added, addr)
  {
    PagePlain(addr, length);
    FillChains(PageOf(addr), Extended(addr, length), agent, sent, limit, top);
    var added := Request(addr, length, agent, sent, limit).added;
    var r := added[0];
    NaturalContains(r, addr);
    assert r in added && r.Contains(addr);
  }

  /** A finished request loop has cached every byte of the range exactly when rounding the
      replies down lost no more than they exceeded the range by. */
  lemma RequestCoversIff(addr: U64, length: U64, agent: Agent, sent: nat, limit: nat, top: U64)
    requires 0 < length && addr + length <= top && Sound(agent, top)
    requires Request(addr, length, agent, sent, limit).done
    ensures var added := Request(addr, length, agent, sent, limit).added;
            (forall x: U64 :: addr <= x < addr + length ==> Covers(added, x))
            <==> RoundingLoss(PageOf(addr), added) <= TotalLength(added) - (length + addr % 4096)
  {
    PagePlain(addr, length);
    var asked, added := PageOf(addr), Request(addr, length, agent, sent, limit).added;
    FillChains(asked, Extended(addr, length), agent, sent, limit, top);
    ChainLength(asked, added);
    forall x: U64 | addr <= x < addr + length
      ensures Covers(added, x) <==> x < ChainEnd(asked, added)
    {
      ChainCovers(asked, added, x);
    }
    var last: U64 := addr + length - 1;
    assert Covers(added, last) <==> last < ChainEnd(asked, added);
  }

  /** Every reply starts at the page asked for. */
  ghost predicate Unrounded(agent: Agent, top: U64) {
    forall k: nat, a: U64 | a % 4096 == 0 && a < top ::
      agent(k, a).Granted? ==> ReplyRegion(a, agent(k, a)).virt == a
  }

  lemma {:induction false} UnroundedLosesNothing(
    asked: U64, length: U64, agent: Agent, sent: nat, limit: nat, top: U64)
    requires asked % 4096 == 0 && asked + length <= top && Sound(agent, top) && Unrounded(agent, top)
    ensures RoundingLoss(asked, Fill(asked, length, agent, sent, limit).added) == 0
    decreases limit - sent
  {
    hide And, IsPow2;
    if length > 0 && sent < limit {
      var g := agent(sent, asked);
      if g.Refused? {
        UnroundedLosesNothing(asked, length, agent, sent + 1, limit, top);
      } else {
        NextAsked(asked, length, agent, sent, top);
        var r := ReplyRegion(asked, g);
        if r.length <= length {
          UnroundedLosesNothing(r.virt + r.length, length - r.length, agent, sent + 1, limit, top);
        }
      }
    }
  }

  /** When every reply starts at the page asked for, every byte of the range is cached, for
      unaligned ranges too. */
  lemma RequestCoversAll(addr: U64, length: U64, agent: Agent, sent: nat, limit: nat, top: U64, x: U64)
    requires addr + length <= top && Sound(agent, top) && Unrounded(agent, top)
    requires Request(addr, length, agent, sent, limit).done && addr <= x < addr + length
    ensures Covers(Request(addr, length, agent, sent, limit).added, x)
  {
    PagePlain(addr, length);
    UnroundedLosesNothing(PageOf(addr), Extended(addr, length), agent, sent, limit, top);
    FillChains(PageOf(addr), Extended(addr, length), agent, sent, limit, top);
    RequestCoversIff(addr, length, agent, sent, limit, top);
  }

  // ----- What is added

  /** Everything added is current and as readable as the agent grants it. */
  lemma {:induction false} FillCoherent(
    asked: U64, length: U64, agent: Agent, sent: nat, limit: nat, host: HostMap, top: U64)
    requires asked % 4096 == 0 && asked + length <= top
    requires Sound(agent, top) && Current(agent, host, top)
    ensures Coherent(host, Fill(asked, length, agent, sent, limit).added)
    decreases limit - sent
  {
    hide And, IsPow2;
    if length > 0 && sent < limit {
      var g := agent(sent, asked);
      if g.Refused? {
        FillCoherent(asked, length, agent, sent + 1, limit, host, top);
      } else {
        NextAsked(asked, length, agent, sent, top);
        var r := ReplyRegion(asked, g);
        if r.length <= length {
          FillCoherent(r.virt + r.length, length - r.length, agent, sent + 1, limit, host, top);
        }
      }
    }
  }
}
