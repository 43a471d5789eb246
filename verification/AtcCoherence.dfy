/** Runs of replies, host remappings and invalidation messages: when does the cache agree with
    the host? */
module AtcCoherence {
  import opened Basics
  import opened Bits
  import opened AtcRegions
  import opened AtcHost
  import opened AtcRequests

  datatype Range = Range(start: U64, len: U64)

  /** `pending` lists the ranges the host has remapped and not yet invalidated. */
  datatype CacheState = CacheState(host: HostMap, cache: seq<Region>, pending: seq<Range>)

  datatype Event =
    | ReplyArrives(asked: U64, reply: Reply)
    | HostRemaps(range: Range, newMap: HostMap)
    | InvalidationMessage(addr: U64, length: Option<U64>)

  predicate PageInRange(p: nat, range: Range) {
    range.start <= p * 4096 < range.start + range.len
  }

  ghost predicate Pending(pending: seq<Range>, p: nat) {
    exists range :: range in pending && PageInRange(p, range)
  }

  predicate Inside(range: Range, start: U64, len: U64) {
    start <= range.start && range.start + range.len <= start + len
  }

  function StillPending(pending: seq<Range>, start: U64, len: U64): seq<Range> {
    if pending == [] then []
    else (if Inside(pending[0], start, len) then [] else [pending[0]]) + StillPending(pending[1..], start, len)
  }

  function After(s: CacheState, e: Event): CacheState {
    match e
    case ReplyArrives(asked, reply) =>
      if reply.Granted? then s.(cache := s.cache + [ReplyRegion(asked, reply)]) else s
    case HostRemaps(range, newMap) => s.(host := newMap, pending := s.pending + [range])
    case InvalidationMessage(addr, length) =>
      if length.None? then s
      else CacheState(s.host, Purge(s.cache, addr, length.value), StillPending(s.pending, addr, length.value))
  }

  ghost predicate SameAt(host: HostMap, host': HostMap, p: nat) {
    (p in host <==> p in host') && (p in host ==> host[p] == host'[p])
  }

  /** What the environment must respect: replies are natural and current when they arrive, a
      remapping changes its range only, and an invalidation is not enclosed by a cached region. */
  ghost predicate Legal(s: CacheState, e: Event) {
    match e
    case ReplyArrives(asked, reply) =>
      reply.Granted? ==> ReplyRegion(asked, reply).Natural() && Agrees(s.host, ReplyRegion(asked, reply))
    case HostRemaps(range, newMap) =>
      forall p: nat :: PageInRange(p, range) || SameAt(s.host, newMap, p)
    case InvalidationMessage(addr, length) =>
      length.Some? ==>
        && length.value > 0 && addr + length.value < W64
        && (forall r :: r in s.cache ==> !Encloses(r, addr, length.value))
  }

  /** Every cached region agrees with the host on every page that is not pending. */
  ghost predicate AgreesUpTo(host: HostMap, r: Region, pending: seq<Range>) {
    forall p: nat :: InPage(r, p) && !Pending(pending, p) ==> AgreesAt(host, r, p)
  }

  ghost predicate CacheInv(s: CacheState) {
    forall r :: r in s.cache ==> r.Natural() && AgreesUpTo(s.host, r, s.pending)
  }

  lemma {:induction false} StillPendingMembers(pending: seq<Range>, start: U64, len: U64, range: Range)
    ensures range in StillPending(pending, start, len) <==> range in pending && !Inside(range, start, len)
    decreases |pending|
  {
    if pending != [] {
      StillPendingMembers(pending[1..], start, len, range);
      assert pending == [pending[0]] + pending[1..];
    }
  }

  lemma ReplyKeeps(s: CacheState, e: Event)
    requires CacheInv(s) && e.ReplyArrives? && Legal(s, e)
    ensures CacheInv(After(s, e))
  {
  }

  lemma RemapKeeps(s: CacheState, e: Event)
    requires CacheInv(s) && e.HostRemaps? && Legal(s, e)
    ensures CacheInv(After(s, e))
  {
    var pending := s.pending + [e.range];
    forall r, p: nat | r in s.cache && InPage(r, p) && !Pending(pending, p)
      ensures AgreesAt(e.newMap, r, p)
    {
      assert e.range in pending;
      assert !PageInRange(p, e.range);
      assert forall range :: range in s.pending ==> range in pending;
      assert !Pending(s.pending, p);
      assert SameAt(s.host, e.newMap, p);
    }
  }

  /** A region that survives an invalidation touches no page the invalidation completes. */
  lemma SurvivorUntouched(s: CacheState, start: U64, len: U64, r: Region, p: nat)
    requires len > 0 && start + len < W64
    requires r.Natural() && !Encloses(r, start, len) && !Hit(r, start, len)
    requires InPage(r, p) && !Pending(StillPending(s.pending, start, len), p)
    ensures !Pending(s.pending, p)
  {
    HitExactly(r, start, len);
    if Pending(s.pending, p) {
      var range :| range in s.pending && PageInRange(p, range);
      StillPendingMembers(s.pending, start, len, range);
    }
  }

  lemma InvalidationKeeps(s: CacheState, e: Event)
    requires CacheInv(s) && e.InvalidationMessage? && e.length.Some? && Legal(s, e)
    ensures CacheInv(After(s, e))
  {
    var start, len := e.addr, e.length.value;
    forall r | r in Purge(s.cache, start, len)
      ensures r.Natural() && AgreesUpTo(s.host, r, StillPending(s.pending, start, len))
    {
      PurgeMembers(s.cache, start, len, r);
      forall p: nat | InPage(r, p) && !Pending(StillPending(s.pending, start, len), p)
        ensures AgreesAt(s.host, r, p)
      {
        SurvivorUntouched(s, start, len, r, p);
      }
    }
  }

  function Events(s: CacheState, es: seq<Event>): CacheState
    decreases |es|
  {
    if es == [] then s else Events(After(s, es[0]), es[1..])
  }

  ghost predicate LegalRun(s: CacheState, es: seq<Event>)
    decreases |es|
  {
    es == [] || (Legal(s, es[0]) && LegalRun(After(s, es[0]), es[1..]))
  }

  lemma EventKeeps(s: CacheState, e: Event)
    requires CacheInv(s) && Legal(s, e)
    ensures CacheInv(After(s, e))
  {
    match e {
      case ReplyArrives(_, _) => ReplyKeeps(s, e);
      case HostRemaps(_, _) => RemapKeeps(s, e);
      case InvalidationMessage(_, length) =>
        if length.Some? {
          InvalidationKeeps(s, e);
        }
    }
  }

  lemma {:induction false} RunKeeps(s: CacheState, es: seq<Event>)
    requires CacheInv(s) && LegalRun(s, es)
    ensures CacheInv(Events(s, es))
    decreases |es|
  {
    if es != [] {
      EventKeeps(s, es[0]);
      RunKeeps(After(s, es[0]), es[1..]);
    }
  }

  /** In every run from an empty cache, an address whose page has no invalidation outstanding
      is either not cached or translated as the host translates it now. */
  lemma {:induction false} CachedMeansCurrent(host: HostMap, es: seq<Event>, addr: U64)
    requires LegalRun(CacheState(host, [], []), es)
    requires var s := Events(CacheState(host, [], []), es);
             Covers(s.cache, addr) && !Pending(s.pending, addr / 4096)
    ensures var s := Events(CacheState(host, [], []), es);
            && Lookup(s.cache, addr).Some? && Mapped(s.host, addr)
            && Lookup(s.cache, addr).value.VirtToPhys(addr) == HostPhys(s.host, addr)
  {
    RunKeeps(CacheState(host, [], []), es);
    var s := Events(CacheState(host, [], []), es);
    LookupFinds(s.cache, addr);
    var r := Lookup(s.cache, addr).value;
    PageInside(r, addr);
    AgreeingTranslation(s.host, r, addr);
  }

  /** The replies a request loop receives, as events. */
  function Replies(asked: U64, length: U64, agent: Agent, sent: nat, limit: nat): seq<Event>
    decreases limit - sent
  {
    if length == 0 || sent >= limit then []
    else
      var g := agent(sent, asked);
      [ReplyArrives(asked, g)] +
      (if g.Refused? then Replies(asked, length, agent, sent + 1, limit)
       else if g.length > length then []
       else Replies(Add64(AlignDown(asked, g.length), g.length), length - g.length, agent, sent + 1, limit))
  }

  /** What a request loop does to the cache is what its replies do to it one by one. */
  lemma {:induction false} RequestsAreReplyEvents(
    s: CacheState, asked: U64, length: U64, agent: Agent, sent: nat, limit: nat)
    ensures Events(s, Replies(asked, length, agent, sent, limit)) ==
            s.(cache := s.cache + Fill(asked, length, agent, sent, limit).added)
    decreases limit - sent
  {
    if length == 0 || sent >= limit {
      assert s.cache + [] == s.cache;
    } else {
      var g := agent(sent, asked);
      var e := ReplyArrives(asked, g);
      if g.Refused? {
        EventsCons(s, e, Replies(asked, length, agent, sent + 1, limit));
        RequestsAreReplyEvents(s, asked, length, agent, sent + 1, limit);
      } else if g.length > length {
        EventsCons(s, e, []);
      } else {
        var ahead, left := Add64(AlignDown(asked, g.length), g.length), length - g.length;
        EventsCons(s, e, Replies(ahead, left, agent, sent + 1, limit));
        RequestsAreReplyEvents(After(s, e), ahead, left, agent, sent + 1, limit);
        var r, rest := ReplyRegion(asked, g), Fill(ahead, left, agent, sent + 1, limit).added;
        assert s.cache + [r] + rest == s.cache + ([r] + rest);
      }
    }
  }

  /** The loop sends one request for each reply it receives. */
  lemma {:induction false} OneRequestPerReply(asked: U64, length: U64, agent: Agent, sent: nat, limit: nat)
    requires sent <= limit
    ensures Fill(asked, length, agent, sent, limit).sent == sent + |Replies(asked, length, agent, sent, limit)| <= limit
    decreases limit - sent
  {
    if length > 0 && sent < limit {
      var g := agent(sent, asked);
      if g.Refused? {
        OneRequestPerReply(asked, length, agent, sent + 1, limit);
      } else if g.length <= length {
        OneRequestPerReply(Add64(AlignDown(asked, g.length), g.length), length - g.length, agent, sent + 1, limit);
      }
    }
  }

  /** With a sound agent whose replies are current, those events are legal. */
  lemma {:induction false} RepliesAreLegal(
    s: CacheState, asked: U64, length: U64, agent: Agent, sent: nat, limit: nat, top: U64)
    requires asked % 4096 == 0 && asked + length <= top
    requires Sound(agent, top) && Current(agent, s.host, top)
    ensures LegalRun(s, Replies(asked, length, agent, sent, limit))
    decreases limit - sent
  {
    if length > 0 && sent < limit {
      var g := agent(sent, asked);
      var e := ReplyArrives(asked, g);
      if g.Refused? {
        LegalCons(s, e, Replies(asked, length, agent, sent + 1, limit));
        RepliesAreLegal(s, asked, length, agent, sent + 1, limit, top);
      } else {
        NextAsked(asked, length, agent, sent, top);
        var ahead := Add64(AlignDown(asked, g.length), g.length);
        if g.length > length {
          LegalCons(s, e, []);
        } else {
          LegalCons(s, e, Replies(ahead, length - g.length, agent, sent + 1, limit));
          RepliesAreLegal(After(s, e), ahead, length - g.length, agent, sent + 1, limit, top);
        }
      }
    }
  }

  lemma LegalCons(s: CacheState, e: Event, es: seq<Event>)
    ensures LegalRun(s, [e] + es) <==> Legal(s, e) && LegalRun(After(s, e), es)
  {
    assert ([e] + es)[1..] == es;
  }

  lemma EventsCons(s: CacheState, e: Event, es: seq<Event>)
    ensures Events(s, [e] + es) == Events(After(s, e), es)
  {
    assert ([e] + es)[1..] == es;
  }

  /** A whole cycle is legal and leaves nothing behind: the host changes its map inside a cached
      region, at pages of the range it names only, and invalidates the region. */
  lemma RemapCycle(host: HostMap, newMap: HostMap, r: Region, start: U64, len: U64)
    requires r.Natural() && Agrees(host, r)
    requires r.virt <= start && start + len <= r.virt + r.length
    requires forall p: nat :: SameAt(host, newMap, p) || start <= p * 4096 < start + len
    ensures var run := [HostRemaps(Range(start, len), newMap), InvalidationMessage(r.virt, Some(r.length))];
            var s := CacheState(host, [r], []);
            LegalRun(s, run) && Events(s, run) == CacheState(newMap, [], [])
  {
    var s, range := CacheState(host, [r], []), Range(start, len);
    var remap, invalidate := HostRemaps(range, newMap), InvalidationMessage(r.virt, Some(r.length));
    var remapped := CacheState(newMap, [r], [range]);
    assert [] + [range] == [range] && [range][1..] == [] && [r][1..] == [];
    HitExactly(r, r.virt, r.length);
    hide Region.Natural;
    assert Purge([r], r.virt, r.length) == [];
    assert Inside(range, r.virt, r.length) && StillPending([range], r.virt, r.length) == [];
    assert After(s, remap) == remapped && Legal(s, remap);
    assert After(remapped, invalidate) == CacheState(newMap, [], []) && Legal(remapped, invalidate);
    hide After, Legal;
    assert [invalidate] + [] == [invalidate] && [remap] + [invalidate] == [remap, invalidate];
    EventsCons(remapped, invalidate, []);
    EventsCons(s, remap, [invalidate]);
    LegalCons(remapped, invalidate, []);
    LegalCons(s, remap, [invalidate]);
  }

  /** Why the proviso on invalidations is needed: a remapped page strictly inside a larger
      region keeps its old translation although its invalidation was delivered. */
  lemma EnclosedInvalidationLeavesStale(host: HostMap, newMap: HostMap, r: Region, page: U64)
    requires r.Natural() && Agrees(host, r)
    requires page % 4096 == 0 && Encloses(r, page, PAGE)
    requires Mapped(newMap, page) && (Mapped(host, page) ==> newMap[page / 4096] != host[page / 4096])
    ensures var s := RemappedAndInvalidated(host, newMap, r, page);
            && s == CacheState(newMap, [r], []) && Lookup([r], page) == Some(r)
            && r.VirtToPhys(page) != HostPhys(newMap, page)
  {
    OnlyPendingDrops(host, newMap, r, page);
    NaturalContains(r, page);
    PageInside(r, page);
    assert AgreesAt(host, r, page / 4096);
    AgreeingTranslation(host, r, page);
  }

  /** The host remaps one page and invalidates it. */
  function RemappedAndInvalidated(host: HostMap, newMap: HostMap, r: Region, page: U64): CacheState {
    var remapped := After(CacheState(host, [r], []), HostRemaps(Range(page, PAGE), newMap));
    After(remapped, InvalidationMessage(page, Some(PAGE)))
  }

  lemma OnlyPendingDrops(host: HostMap, newMap: HostMap, r: Region, page: U64)
    requires r.Natural() && Encloses(r, page, PAGE)
    ensures RemappedAndInvalidated(host, newMap, r, page) == CacheState(newMap, [r], [])
  {
    EnclosedSurvives(r, page);
    var range := Range(page, PAGE);
    assert Inside(range, page, PAGE);
    assert [range][1..] == [] && [] + [range] == [range];
    assert StillPending([range], page, PAGE) == [];
  }

  lemma EnclosedSurvives(r: Region, page: U64)
    requires r.Natural() && Encloses(r, page, PAGE)
    ensures Purge([r], page, PAGE) == [r]
  {
    HitExactly(r, page, PAGE);
    assert [r][1..] == [];
  }
}
