/** Which MD5 walks are sure to be digested, whatever the host and the other threads do at their
    yield points. */
module AtcMd5Interference {
  import opened Basics
  import opened Bits
  import opened AtcRegions
  import opened AtcHost
  import opened AtcRequests
  import opened AtcTranslate
  import opened AtcMd5
  import opened AtcCoherence
  import opened AtcMd5Runs

  /** A step that brings nothing but readable regions into the cache. */
  predicate ReadableStep(step: Step) {
    match step
    case Environment(e) => e.ReplyArrives? && e.reply.Granted? ==> AttrRead in e.reply.attrs
    case Resume => true
    case Answer(reply) => reply.Granted? ==> AttrRead in reply.attrs
  }

  ghost predicate ReadableSteps(steps: seq<Step>) {
    forall k :: 0 <= k < |steps| ==> ReadableStep(steps[k])
  }

  function Started(s: CacheState, addr: U64, len: U64): Machine {
    Machine(s, addr, len, Yielded, [])
  }

  /** Every allowed run of the walk over readable pages that ends has digested the range. */
  ghost predicate SureToDigest(addr: U64, len: U64) {
    forall s: CacheState, steps: seq<Step> ::
      CacheInv(s) && AllReadable(s.cache) && ReadableSteps(steps) && AllAllowed(Started(s, addr, len), steps)
      && Steps(Started(s, addr, len), steps).pc.Ended? ==>
        Steps(Started(s, addr, len), steps).pc == Ended(Digested)
  }

  // ----- Within one page nothing can come between the reply and the turn

  /** The range is empty, or starts a page and does not leave it. */
  predicate OnePage(addr: U64, len: U64) {
    len == 0 || (addr % 4096 == 0 && len <= PAGE)
  }

  /** The walk has all of its page to go or nothing; it waits for that page or not at all. */
  ghost predicate PageInv(m: Machine) {
    && CacheInv(m.s) && AllReadable(m.s.cache)
    && OnePage(m.va, m.left) && m.va + m.left < W64
    && (m.pc.Requesting? ==> 0 < m.left && m.pc.asked == m.va && 0 < m.pc.toGo <= PAGE)
    && (m.pc.Ended? ==> m.pc.outcome == Digested)
  }

  lemma PurgeReadable(regions: seq<Region>, start: U64, len: U64)
    requires AllReadable(regions)
    ensures AllReadable(Purge(regions, start, len))
  {
    forall r | r in Purge(regions, start, len) ensures AttrRead in r.attrs {
      PurgeMembers(regions, start, len, r);
    }
  }

  lemma EventReadable(s: CacheState, e: Event)
    requires AllReadable(s.cache) && ReadableStep(Environment(e))
    ensures AllReadable(After(s, e).cache)
  {
    if e.InvalidationMessage? && e.length.Some? {
      PurgeReadable(s.cache, e.addr, e.length.value);
    }
  }

  /** The turn at the start of a readable cached page takes all of the range. */
  lemma PageTurn(m: Machine)
    requires CacheInv(m.s) && AllReadable(m.s.cache) && Covers(m.s.cache, m.va)
    requires 0 < m.left && OnePage(m.va, m.left) && m.va + m.left < W64
    ensures PageInv(TakeTurn(m)) && TakeTurn(m).pc.Yielded?
  {
    LookupFinds(m.s.cache, m.va);
    CacheIsNatural(m.s);
    CachedOffset(m.s.cache, m.va);
    hide And, CacheInv, AllReadable, PhysAt;
    assert NextTurn(Ready(m.s.cache, 0, true), m.va, m.left) == Feed(Chunk(PhysAt(m.s.cache, m.va), m.left));
  }

  lemma GrantedPage(m: Machine, reply: Reply)
    requires PageInv(m) && m.pc.Requesting? && reply.Granted? && AttrRead in reply.attrs
    requires Legal(m.s, ReplyArrives(m.pc.asked, reply))
    ensures Stepped(m, Answer(reply)) == TakeTurn(m.(s := After(m.s, ReplyArrives(m.pc.asked, reply))))
    ensures Covers(After(m.s, ReplyArrives(m.pc.asked, reply)).cache, m.va)
  {
    var r := ReplyRegion(m.va, reply);
    AlignDownContains(m.va, reply.length);
    NaturalContains(r, m.va);
    hide TakeTurn, AlignDown, CacheInv, AllReadable;
    assert r in After(m.s, ReplyArrives(m.pc.asked, reply)).cache;
    TurnIgnoresToGo(m, reply);
  }

  lemma TurnIgnoresToGo(m: Machine, reply: Reply)
    requires m.left > 0 && m.pc.Requesting? && reply.Granted? && reply.length >= m.pc.toGo
    ensures Stepped(m, Answer(reply)) == TakeTurn(m.(s := After(m.s, ReplyArrives(m.pc.asked, reply))))
  {
    hide TakeTurn, AlignDown;
  }

  lemma StepKeepsPage(m: Machine, step: Step)
    requires PageInv(m) && Allowed(m, step) && ReadableStep(step)
    ensures PageInv(Stepped(m, step))
  {
    hide CacheInv, AllReadable, TakeTurn, Legal, After;
    match step {
      case Environment(e) =>
        EventKeeps(m.s, e);
        EventReadable(m.s, e);
      case Resume =>
        if m.left > 0 {
          LookupFinds(m.s.cache, m.va);
          PagePlain(m.va, m.left);
          hide PageOf, Extended;
          if Lookup(m.s.cache, m.va).Some? {
            PageTurn(m);
          }
        }
      case Answer(reply) =>
        if reply.Granted? {
          var e := ReplyArrives(m.pc.asked, reply);
          EventKeeps(m.s, e);
          EventReadable(m.s, e);
          GrantedPage(m, reply);
          PageTurn(m.(s := After(m.s, e)));
        }
    }
  }

  lemma {:induction false} PageAlongRun(m: Machine, steps: seq<Step>)
    requires PageInv(m) && AllAllowed(m, steps) && ReadableSteps(steps)
    ensures PageInv(Steps(m, steps))
    decreases |steps|
  {
    hide PageInv, Stepped, Legal, ReadableStep;
    if steps != [] {
      StepKeepsPage(m, steps[0]);
      PageAlongRun(Stepped(m, steps[0]), steps[1..]);
    }
  }

  /** A walk of at most one page, from its start, is digested whenever it ends. */
  lemma OnePageDigests(s: CacheState, addr: U64, len: U64, steps: seq<Step>)
    requires CacheInv(s) && AllReadable(s.cache) && OnePage(addr, len) && addr + len < W64
    requires ReadableSteps(steps) && AllAllowed(Started(s, addr, len), steps)
    requires Steps(Started(s, addr, len), steps).pc.Ended?
    ensures Steps(Started(s, addr, len), steps).pc == Ended(Digested)
  {
    PageAlongRun(Started(s, addr, len), steps);
  }

  // ----- A host that maps every page to itself, page by page

  const PAGES: nat := 0x10_0000_0000_0000

  predicate InSpace(p: nat) { p < PAGES }

  function IdentityHost(): HostMap {
    map p: nat | p < PAGES && InSpace(p) :: p
  }

  function PageReply(page: U64): Reply { Granted(page, 4096, {AttrRead}) }

  function PageRegion(page: U64): Region { Region(page, page, 4096, {AttrRead}) }

  lemma PageReplyRegion(page: U64)
    requires page % 4096 == 0 && page < W64 - 4096
    ensures ReplyRegion(page, PageReply(page)) == PageRegion(page) && PageRegion(page).Natural()
    ensures Agrees(IdentityHost(), PageRegion(page))
  {
    hide And, IsPow2;
    PageIsPow2();
    AlignDownContains(page, 4096);
    PageAgrees(page);
  }

  lemma PageAgrees(page: U64)
    requires page % 4096 == 0
    ensures Agrees(IdentityHost(), PageRegion(page))
  {
    forall p: nat | InPage(PageRegion(page), p) ensures AgreesAt(IdentityHost(), PageRegion(page), p) {
      assert p == page / 4096;
    }
  }

  /** The state of a host with nothing pending and an empty cache. */
  function Fresh(): CacheState { CacheState(IdentityHost(), [], []) }

  // ----- An unsafe range goes wrong without interference

  function PageAgent(): Agent {
    (k: nat, a: U64) => if a % 4096 == 0 && a < W64 - 4096 then PageReply(a) else Refused
  }

  lemma PageAgentServes(top: U64)
    requires top <= W64 - 4096
    ensures Sound(PageAgent(), top) && Current(PageAgent(), IdentityHost(), top)
    ensures Answers(PageAgent(), top) && GrantsRead(PageAgent())
  {
    forall k: nat, a: U64 | a % 4096 == 0 && a < top
      ensures PageAgent()(k, a) == PageReply(a) && ReplyRegion(a, PageAgent()(k, a)).Natural()
      ensures Agrees(IdentityHost(), ReplyRegion(a, PageAgent()(k, a)))
      ensures AnsweredFrom(PageAgent(), k, a)
    {
      PageReplyRegion(a);
    }
  }

  lemma {:induction false} AnswersReadable(asked: U64, toGo: U64, agent: Agent, sent: nat, limit: nat)
    requires GrantsRead(agent)
    ensures ReadableSteps(AgentAnswers(asked, toGo, agent, sent, limit))
    decreases limit - sent
  {
    if toGo > 0 && sent < limit {
      var g := agent(sent, asked);
      if g.Refused? {
        AnswersReadable(asked, toGo, agent, sent + 1, limit);
      } else if g.length <= toGo {
        AnswersReadable(Add64(AlignDown(asked, g.length), g.length), toGo - g.length, agent, sent + 1, limit);
      }
    }
  }

  lemma ReadableAppend(front: seq<Step>, back: seq<Step>)
    requires ReadableSteps(front) && ReadableSteps(back)
    ensures ReadableSteps(front + back)
  {
  }

  lemma {:induction false} QuietReadable(
    regions: seq<Region>, sent: nat, addr: U64, len: U64, agent: Agent, limit: nat)
    requires GrantsRead(agent)
    ensures ReadableSteps(QuietSteps(regions, sent, addr, len, agent, limit))
    decreases len
  {
    hide Ensured, ReadableAt, PhysAt, ChunkLength, AgentAnswers;
    assert ReadableSteps([]) && ReadableSteps([Resume]);
    hide ReadableSteps;
    if len > 0 {
      var e := Ensured(regions, sent, addr, len, agent, limit);
      var answers := if Lookup(regions, addr).Some? then []
                     else AgentAnswers(PageOf(addr), Extended(addr, len), agent, sent, limit);
      AnswersReadable(PageOf(addr), Extended(addr, len), agent, sent, limit);
      ReadableAppend([Resume], answers);
      var turn := NextTurn(e, addr, len);
      if turn.Feed? {
        var next: U64, left := Add64(addr, turn.chunk.len), len - turn.chunk.len;
        QuietReadable(e.regions, e.sent, next, left, agent, limit);
        ReadableAppend([Resume] + answers, QuietSteps(e.regions, e.sent, next, left, agent, limit));
      }
    }
  }

  lemma UnsafeRunGoesWrong(addr: U64, len: U64)
    requires addr + len <= W64 - 4096 && !WalkSafe(addr, len)
    ensures !SureToDigest(addr, len)
  {
    var s, agent, top: U64 := Fresh(), PageAgent(), W64 - 4096;
    PageAgentServes(top);
    var limit := WalkEnds([], 0, addr, len, agent, top);
    UnsafeWalkNeverDigests(s.host, [], 0, addr, len, agent, limit, top);
    var steps := QuietSteps([], 0, addr, len, agent, limit);
    var m := Started(s, addr, len);
    QuietRunIsWalk(m, agent, 0, limit);
    QuietStepsAllowed(m, agent, 0, limit, top);
    QuietReadable([], 0, addr, len, agent, limit);
  }

  // ----- Outside one page an invalidation can deny the walk

  lemma StepsCons(m: Machine, step: Step, rest: seq<Step>)
    requires Allowed(m, step) && AllAllowed(Stepped(m, step), rest)
    ensures AllAllowed(m, [step] + rest) && Steps(m, [step] + rest) == Steps(Stepped(m, step), rest)
  {
    assert ([step] + rest)[1..] == rest;
  }

  /** No page is remapped and every reply is readable. */
  predicate Harmless(step: Step) {
    ReadableStep(step) && (step.Environment? ==> !step.e.HostRemaps?)
  }

  /** The steps lead the machine to a denied end without a byte read. */
  ghost predicate Denies(m: Machine, steps: seq<Step>) {
    && AllAllowed(m, steps) && (forall k :: 0 <= k < |steps| ==> Harmless(steps[k]))
    && Steps(m, steps).pc == Ended(Denied) && Steps(m, steps).fed == m.fed
  }

  lemma DeniesCons(m: Machine, step: Step, rest: seq<Step>)
    requires Allowed(m, step) && Harmless(step) && Denies(Stepped(m, step), rest)
    requires Stepped(m, step).fed == m.fed
    ensures Denies(m, [step] + rest)
  {
    hide Stepped, Allowed, Harmless;
    StepsCons(m, step, rest);
  }

  /** Waiting for a page, with an empty cache and nothing pending. */
  ghost predicate WaitsEmpty(m: Machine) {
    && m.s == Fresh() && m.pc.Requesting? && 0 < m.left && 0 < m.pc.toGo
    && m.pc.asked % 4096 == 0 && m.pc.asked + m.pc.toGo <= W64 - 4096
  }

  function Invalidated(page: U64): Step { Environment(InvalidationMessage(page, Some(4096))) }

  lemma PurgesPage(page: U64)
    requires page < W64 - 4096
    ensures Purge([PageRegion(page)], page, 4096) == [] && !Encloses(PageRegion(page), page, 4096)
  {
    assert [PageRegion(page)][1..] == [];
  }

  lemma PageAnswered(m: Machine)
    requires WaitsEmpty(m) && m.pc.toGo > PAGE
    ensures Allowed(m, Answer(PageReply(m.pc.asked)))
    ensures Stepped(m, Answer(PageReply(m.pc.asked))) ==
            m.(s := CacheState(IdentityHost(), [PageRegion(m.pc.asked)], []),
               pc := Requesting(m.pc.asked + PAGE, m.pc.toGo - PAGE))
  {
    PageReplyRegion(m.pc.asked);
    hide AlignDown, IdentityHost, TakeTurn;
  }

  lemma PageInvalidated(m: Machine, page: U64)
    requires page < W64 - 4096 && m.s == CacheState(IdentityHost(), [PageRegion(page)], [])
    ensures Allowed(m, Invalidated(page)) && Stepped(m, Invalidated(page)) == m.(s := Fresh())
  {
    hide IdentityHost;
    PurgesPage(page);
  }

  /** The last page asked for is cached, the one the walk stands in is not: the turn is denied. */
  lemma LastPageDenies(m: Machine)
    requires WaitsEmpty(m) && m.va < m.pc.asked && m.pc.toGo <= PAGE
    ensures Allowed(m, Answer(PageReply(m.pc.asked)))
    ensures var e := Stepped(m, Answer(PageReply(m.pc.asked)));
            e.pc == Ended(Denied) && e.fed == m.fed
  {
    var page := m.pc.asked;
    PageReplyRegion(page);
    NaturalContains(PageRegion(page), m.va);
    assert [PageRegion(page)][1..] == [] && Lookup([PageRegion(page)], m.va).None?;
    hide AlignDown, IdentityHost, Stepped;
    TurnIgnoresToGo(m, PageReply(page));
    assert After(m.s, ReplyArrives(page, PageReply(page))).cache == [PageRegion(page)];
  }

  lemma {:induction false} DeniedFrom(m: Machine) returns (steps: seq<Step>)
    requires WaitsEmpty(m) && m.va < m.pc.asked
    ensures Denies(m, steps)
    decreases m.pc.toGo
  {
    hide Stepped, Allowed;
    var page := m.pc.asked;
    if m.pc.toGo <= PAGE {
      LastPageDenies(m);
      StepsCons(m, Answer(PageReply(page)), []);
      steps := [Answer(PageReply(page))] + [];
    } else {
      steps := InvalidateBefore(m);
    }
  }

  /** The page asked for arrives and is invalidated before the next one does. */
  lemma {:induction false} InvalidateBefore(m: Machine) returns (steps: seq<Step>)
    requires WaitsEmpty(m) && m.pc.toGo > PAGE && m.va < m.pc.asked + PAGE
    ensures Denies(m, steps)
    decreases m.pc.toGo, 0
  {
    hide Stepped, Allowed, Denies, Fresh;
    var page := m.pc.asked;
    PageAnswered(m);
    var cached := Stepped(m, Answer(PageReply(page)));
    PageInvalidated(cached, page);
    var next := Stepped(cached, Invalidated(page));
    var rest := DeniedFrom(next);
    DeniesCons(cached, Invalidated(page), rest);
    DeniesCons(m, Answer(PageReply(page)), [Invalidated(page)] + rest);
    steps := [Answer(PageReply(page))] + ([Invalidated(page)] + rest);
  }

  /** Every range that leaves its first page has a run, over readable pages none of which is
      remapped, in which the walk is denied before a byte is read: the first page is invalidated
      while the walk waits for a later one, and the check after the last reply does not find it. */
  lemma InvalidationDenies(addr: U64, len: U64) returns (steps: seq<Step>)
    requires addr + len <= W64 - 4096 && 0 < len && addr / 4096 != (addr + len - 1) / 4096
    ensures Denies(Started(Fresh(), addr, len), steps)
  {
    var m := Started(Fresh(), addr, len);
    PagePlain(addr, len);
    LeavesPage(addr, len);
    hide PageOf, Extended, IdentityHost;
    var waits := m.(pc := Requesting(PageOf(addr), Extended(addr, len)));
    assert Stepped(m, Resume) == waits;
    hide Stepped, Denies;
    var rest := InvalidateBefore(waits);
    DeniesCons(m, Resume, rest);
    steps := [Resume] + rest;
  }

  lemma LeavesPage(addr: U64, len: U64)
    requires 0 < len && addr / 4096 != (addr + len - 1) / 4096
    ensures len + addr % 4096 > PAGE
  {
  }

  lemma CrossingNotSure(addr: U64, len: U64)
    requires addr + len <= W64 - 4096 && 0 < len && addr / 4096 != (addr + len - 1) / 4096
    ensures !SureToDigest(addr, len)
  {
    var steps := InvalidationDenies(addr, len);
    assert ReadableSteps(steps);
    assert CacheInv(Fresh()) && AllReadable(Fresh().cache);
  }

  /** The walk over readable pages is sure to be digested, whatever legal replies, remappings and
      invalidations come at its yield points, exactly when its range is empty, or starts on a page
      and does not leave it. Ranges into the last page of the address space are left out: no
      natural region maps that page. */
  lemma SureToDigestIff(addr: U64, len: U64)
    requires addr + len <= W64 - 4096
    ensures SureToDigest(addr, len) <==> len == 0 || (addr % 4096 == 0 && len <= PAGE)
    ensures WalkSafe(addr, len) ==>
              (SureToDigest(addr, len) <==> len == 0 || addr / 4096 == (addr + len - 1) / 4096)
  {
    if 0 < len && WalkSafe(addr, len) {
      PageOrCrossing(addr, len);
    }
    if OnePage(addr, len) {
      forall s: CacheState, steps: seq<Step>
        | CacheInv(s) && AllReadable(s.cache) && ReadableSteps(steps) && AllAllowed(Started(s, addr, len), steps)
          && Steps(Started(s, addr, len), steps).pc.Ended?
        ensures Steps(Started(s, addr, len), steps).pc == Ended(Digested)
      {
        OnePageDigests(s, addr, len, steps);
      }
    } else if WalkSafe(addr, len) {
      CrossingNotSure(addr, len);
    } else {
      UnsafeRunGoesWrong(addr, len);
    }
  }

  lemma PageOrCrossing(addr: U64, len: U64)
    requires 0 < len && WalkSafe(addr, len)
    ensures OnePage(addr, len) <==> addr / 4096 == (addr + len - 1) / 4096
  {
  }
}
