/** The MD5 walk with the host and the other threads running at its yield points: replies of
    other requests, remappings and invalidations may arrive whenever the walk waits. */
module AtcMd5Runs {
  import opened Basics
  import opened Bits
  import opened AtcRegions
  import opened AtcHost
  import opened AtcRequests
  import opened AtcTranslate
  import opened AtcMd5
  import opened AtcCoherence

  /** Where the walk waits: at its start or for the read of a chunk, for the reply to a request
      with so much of the range to go, or nowhere any more. */
  datatype Pc = Yielded | Requesting(asked: U64, toGo: U64) | Ended(outcome: Outcome)

  /** A chunk, the virtual address it was translated from, and the state at that moment. */
  datatype Feeding = Feeding(va: U64, chunk: Chunk, at: CacheState)

  datatype Machine = Machine(s: CacheState, va: U64, left: U64, pc: Pc, fed: seq<Feeding>)

  datatype Step = Environment(e: Event) | Resume | Answer(reply: Reply)

  /** From the end of the check to the read of a chunk there is no yield. */
  function TakeTurn(m: Machine): Machine
    requires m.left > 0
  {
    match NextTurn(Ready(m.s.cache, 0, true), m.va, m.left)
    case Stop(outcome) => m.(pc := Ended(outcome))
    case Feed(c) => Machine(m.s, Add64(m.va, c.len), m.left - c.len, Yielded, m.fed + [Feeding(m.va, c, m.s)])
  }

  /** The head of the request loop. */
  function RequestNext(m: Machine, asked: U64, toGo: U64): Machine
    requires m.left > 0
  {
    if toGo == 0 then TakeTurn(m) else m.(pc := Requesting(asked, toGo))
  }

  ghost predicate Allowed(m: Machine, step: Step) {
    match step
    case Environment(e) => Legal(m.s, e)
    case Resume => m.pc.Yielded?
    case Answer(reply) => m.pc.Requesting? && m.left > 0 && Legal(m.s, ReplyArrives(m.pc.asked, reply))
  }

  function Stepped(m: Machine, step: Step): Machine {
    match step
    case Environment(e) => m.(s := After(m.s, e))
    case Resume =>
      if m.left == 0 then m.(pc := Ended(Digested))
      else if Lookup(m.s.cache, m.va).Some? then TakeTurn(m)
      else RequestNext(m, PageOf(m.va), Extended(m.va, m.left))
    case Answer(reply) =>
      if !m.pc.Requesting? || m.left == 0 || reply.Refused? then m
      else
        var asked, toGo := m.pc.asked, m.pc.toGo;
        var next := m.(s := After(m.s, ReplyArrives(asked, reply)));
        if reply.length > toGo then TakeTurn(next)
        else RequestNext(next, Add64(AlignDown(asked, reply.length), reply.length), toGo - reply.length)
  }

  ghost predicate AllAllowed(m: Machine, steps: seq<Step>)
    decreases |steps|
  {
    steps == [] || (Allowed(m, steps[0]) && AllAllowed(Stepped(m, steps[0]), steps[1..]))
  }

  function Steps(m: Machine, steps: seq<Step>): Machine
    decreases |steps|
  {
    if steps == [] then m else Steps(Stepped(m, steps[0]), steps[1..])
  }

  lemma {:induction false} StepsAppend(m: Machine, front: seq<Step>, back: seq<Step>)
    ensures Steps(m, front + back) == Steps(Steps(m, front), back)
    decreases |front|
  {
    hide Stepped;
    if front == [] {
      assert front + back == back;
    } else {
      assert (front + back)[1..] == front[1..] + back;
      StepsAppend(Stepped(m, front[0]), front[1..], back);
    }
  }

  lemma {:induction false} AllowedAppend(m: Machine, front: seq<Step>, back: seq<Step>)
    requires AllAllowed(m, front) && AllAllowed(Steps(m, front), back)
    ensures AllAllowed(m, front + back)
    decreases |front|
  {
    hide Stepped, Allowed;
    if front == [] {
      assert front + back == back;
    } else {
      assert (front + back)[1..] == front[1..] + back;
      AllowedAppend(Stepped(m, front[0]), front[1..], back);
    }
  }

  lemma StepsOne(m: Machine, step: Step)
    ensures Steps(m, [step]) == Stepped(m, step) && (Allowed(m, step) ==> AllAllowed(m, [step]))
  {
    assert [step][1..] == [];
  }

  // ----- Undisturbed, it is the walk of `AtcMd5`

  /** The answers an agent gives to a request loop. */
  function AgentAnswers(asked: U64, toGo: U64, agent: Agent, sent: nat, limit: nat): seq<Step>
    decreases limit - sent
  {
    if toGo == 0 || sent >= limit then []
    else
      var g := agent(sent, asked);
      [Answer(g)] +
      (if g.Refused? then AgentAnswers(asked, toGo, agent, sent + 1, limit)
       else if g.length > toGo then []
       else AgentAnswers(Add64(AlignDown(asked, g.length), g.length), toGo - g.length, agent, sent + 1, limit))
  }

  function Grown(m: Machine, added: seq<Region>): Machine {
    m.(s := m.s.(cache := m.s.cache + added))
  }

  /** A request loop ends in the turn that follows it, or waits with what was added so far. */
  ghost predicate RequestedTo(m: Machine, f: Filled, e: Machine)
    requires m.left > 0
  {
    if f.done then e == TakeTurn(Grown(m, f.added))
    else e.pc.Requesting? && e.fed == m.fed && e.s == Grown(m, f.added).s
  }

  lemma RequestedCons(m: Machine, r: Region, rest: Filled, e: Machine)
    requires m.left > 0 && RequestedTo(Grown(m, [r]), rest, e)
    ensures RequestedTo(m, rest.(added := [r] + rest.added), e)
  {
    hide TakeTurn;
    assert m.s.cache + [r] + rest.added == m.s.cache + ([r] + rest.added);
  }

  lemma TurnIgnoresWait(m: Machine, pc: Pc)
    requires m.left > 0
    ensures TakeTurn(m.(pc := pc)) == TakeTurn(m)
  {
  }

  /** A granted request with more to go leaves the rest of the loop to a grown cache. */
  lemma AnswersGrant(m: Machine, asked: U64, toGo: U64, agent: Agent, sent: nat, limit: nat, g: Reply)
    requires m.left > 0 && 0 < toGo && sent < limit
    requires g == agent(sent, asked) && g.Granted? && g.length <= toGo
    ensures var ahead, left := Add64(AlignDown(asked, g.length), g.length), toGo - g.length;
            Steps(RequestNext(m, asked, toGo), AgentAnswers(asked, toGo, agent, sent, limit)) ==
            Steps(RequestNext(Grown(m, [ReplyRegion(asked, g)]), ahead, left),
                  AgentAnswers(ahead, left, agent, sent + 1, limit))
  {
    var waits, grown := RequestNext(m, asked, toGo), Grown(m, [ReplyRegion(asked, g)]);
    NextAfterGrant(waits, grown, g);
    hide NextTurn, AlignDown, TakeTurn, Stepped, ReplyRegion;
    StepsOne(waits, Answer(g));
    StepsAppend(waits, [Answer(g)],
                AgentAnswers(Add64(AlignDown(asked, g.length), g.length), toGo - g.length, agent, sent + 1, limit));
  }

  /** The machine right after a granted reply does not depend on what it waited for. */
  lemma NextAfterGrant(waits: Machine, grown: Machine, g: Reply)
    requires waits.left > 0 && waits.pc.Requesting? && g.Granted? && g.length <= waits.pc.toGo
    requires grown.(pc := waits.pc) == Grown(waits, [ReplyRegion(waits.pc.asked, g)])
    ensures Stepped(waits, Answer(g)) ==
            RequestNext(grown, Add64(AlignDown(waits.pc.asked, g.length), g.length), waits.pc.toGo - g.length)
  {
    hide NextTurn, AlignDown;
  }

  /** A request that is refused for good, or granted with nothing more to go. */
  lemma AnswersEnd(m: Machine, asked: U64, toGo: U64, agent: Agent, sent: nat, limit: nat)
    requires m.left > 0
    requires toGo == 0 || sent >= limit || (agent(sent, asked).Granted? && agent(sent, asked).length > toGo)
    ensures RequestedTo(m, Fill(asked, toGo, agent, sent, limit),
                        Steps(RequestNext(m, asked, toGo), AgentAnswers(asked, toGo, agent, sent, limit)))
  {
    hide NextTurn, AlignDown, TakeTurn;
    assert Grown(m, []) == m by {
      assert m.s.cache + [] == m.s.cache;
    }
    if toGo > 0 && sent < limit {
      var g := agent(sent, asked);
      var waits := RequestNext(m, asked, toGo);
      StepsOne(waits, Answer(g));
      assert [Answer(g)] + [] == [Answer(g)];
      TurnIgnoresWait(Grown(m, [ReplyRegion(asked, g)]), waits.pc);
    }
  }

  lemma AnswersRefused(m: Machine, asked: U64, toGo: U64, agent: Agent, sent: nat, limit: nat)
    requires m.left > 0 && 0 < toGo && sent < limit && agent(sent, asked).Refused?
    ensures Steps(RequestNext(m, asked, toGo), AgentAnswers(asked, toGo, agent, sent, limit)) ==
            Steps(RequestNext(m, asked, toGo), AgentAnswers(asked, toGo, agent, sent + 1, limit))
  {
    hide NextTurn, AlignDown, TakeTurn;
    var waits := RequestNext(m, asked, toGo);
    StepsOne(waits, Answer(agent(sent, asked)));
    StepsAppend(waits, [Answer(agent(sent, asked))], AgentAnswers(asked, toGo, agent, sent + 1, limit));
  }

  lemma {:induction false} AnswersFill(
    m: Machine, asked: U64, toGo: U64, agent: Agent, sent: nat, limit: nat)
    requires m.left > 0
    ensures RequestedTo(m, Fill(asked, toGo, agent, sent, limit),
                        Steps(RequestNext(m, asked, toGo), AgentAnswers(asked, toGo, agent, sent, limit)))
    decreases limit - sent
  {
    hide AgentAnswers, RequestNext, RequestedTo, Steps, AlignDown, ReplyRegion;
    var g := agent(sent, asked);
    if toGo == 0 || sent >= limit || (g.Granted? && g.length > toGo) {
      AnswersEnd(m, asked, toGo, agent, sent, limit);
    } else if g.Refused? {
      AnswersRefused(m, asked, toGo, agent, sent, limit);
      AnswersFill(m, asked, toGo, agent, sent + 1, limit);
    } else {
      var ahead: U64 := Add64(AlignDown(asked, g.length), g.length);
      AnswersGrant(m, asked, toGo, agent, sent, limit, g);
      AnswersFill(Grown(m, [ReplyRegion(asked, g)]), ahead, toGo - g.length, agent, sent + 1, limit);
      RequestedCons(m, ReplyRegion(asked, g), Fill(ahead, toGo - g.length, agent, sent + 1, limit),
                    Steps(RequestNext(m, asked, toGo), AgentAnswers(asked, toGo, agent, sent, limit)));
    }
  }

  /** The steps of a walk that nothing interferes with. */
  function QuietSteps(regions: seq<Region>, sent: nat, addr: U64, len: U64, agent: Agent, limit: nat): seq<Step>
    decreases len
  {
    if len == 0 then [Resume]
    else
      var e := Ensured(regions, sent, addr, len, agent, limit);
      var check := [Resume] +
        if Lookup(regions, addr).Some? then [] else AgentAnswers(PageOf(addr), Extended(addr, len), agent, sent, limit);
      match NextTurn(e, addr, len)
      case Stop(_) => check
      case Feed(c) => check + QuietSteps(e.regions, e.sent, Add64(addr, c.len), len - c.len, agent, limit)
  }

  function Chunks(fed: seq<Feeding>): seq<Chunk> {
    seq(|fed|, k requires 0 <= k < |fed| => fed[k].chunk)
  }

  /** The check of one iteration and the turn after it. */
  lemma QuietCheck(m: Machine, agent: Agent, sent: nat, limit: nat) returns (check: seq<Step>)
    requires m.pc.Yielded? && m.left > 0
    ensures check == [Resume] +
              if Lookup(m.s.cache, m.va).Some? then []
              else AgentAnswers(PageOf(m.va), Extended(m.va, m.left), agent, sent, limit)
    ensures var e := Ensured(m.s.cache, sent, m.va, m.left, agent, limit);
            if e.done then Steps(m, check) == TakeTurn(m.(s := m.s.(cache := e.regions)))
            else Steps(m, check).pc.Requesting? && Steps(m, check).fed == m.fed
                 && Steps(m, check).s == m.s.(cache := e.regions)
  {
    hide NextTurn, Fill, PageOf, Extended;
    StepsOne(m, Resume);
    if Lookup(m.s.cache, m.va).Some? {
      check := [Resume];
      assert [Resume] + [] == [Resume];
    } else {
      var answers := AgentAnswers(PageOf(m.va), Extended(m.va, m.left), agent, sent, limit);
      check := [Resume] + answers;
      StepsAppend(m, [Resume], answers);
      AnswersFill(m, PageOf(m.va), Extended(m.va, m.left), agent, sent, limit);
    }
  }

  /** From `m` the machine came to `e` the way the walk went. */
  ghost predicate WentLike(m: Machine, w: Walk, e: Machine) {
    && e.s == m.s.(cache := w.regions) && Chunks(e.fed) == Chunks(m.fed) + w.chunks
    && (if w.outcome == Waiting then !e.pc.Ended? else e.pc == Ended(w.outcome))
  }

  lemma WentLikeCons(m: Machine, regions: seq<Region>, c: Chunk, rest: Walk, e: Machine)
    requires m.left > 0 && c.len <= m.left
    requires var fed := m.fed + [Feeding(m.va, c, m.s.(cache := regions))];
             WentLike(Machine(m.s.(cache := regions), Add64(m.va, c.len), m.left - c.len, Yielded, fed), rest, e)
    ensures WentLike(m, FedFirst(c, rest), e)
  {
    var fed := m.fed + [Feeding(m.va, c, m.s.(cache := regions))];
    assert Chunks(fed) == Chunks(m.fed) + [c];
    assert Chunks(m.fed) + [c] + rest.chunks == Chunks(m.fed) + ([c] + rest.chunks);
  }

  /** The iterations after one that reads a chunk, in the walk and in the machine. */
  lemma QuietFeed(m: Machine, agent: Agent, sent: nat, limit: nat, e: Ready, c: Chunk)
    requires m.left > 0 && e == Ensured(m.s.cache, sent, m.va, m.left, agent, limit)
    requires NextTurn(e, m.va, m.left) == Feed(c)
    ensures var next, left := Add64(m.va, c.len), m.left - c.len;
            && Md5Walk(m.s.cache, sent, m.va, m.left, agent, limit) ==
               FedFirst(c, Md5Walk(e.regions, e.sent, next, left, agent, limit))
            && TakeTurn(m.(s := m.s.(cache := e.regions))) ==
               Machine(m.s.(cache := e.regions), next, left, Yielded,
                       m.fed + [Feeding(m.va, c, m.s.(cache := e.regions))])
  {
    hide Ensured, ReadableAt, PhysAt, ChunkLength;
  }

  lemma QuietStop(m: Machine, agent: Agent, sent: nat, limit: nat)
    requires m.pc.Yielded? && m.left > 0
    requires NextTurn(Ensured(m.s.cache, sent, m.va, m.left, agent, limit), m.va, m.left).Stop?
    ensures WentLike(m, Md5Walk(m.s.cache, sent, m.va, m.left, agent, limit),
                     Steps(m, QuietSteps(m.s.cache, sent, m.va, m.left, agent, limit)))
  {
    hide Ensured, ReadableAt, PhysAt, ChunkLength, Stepped, Steps, AgentAnswers;
    var check := QuietCheck(m, agent, sent, limit);
    assert Chunks(m.fed) + [] == Chunks(m.fed);
  }

  /** Without steps of the environment the machine feeds the chunks of the walk, leaves its cache
      and ends as it does; it still waits where the walk does. */
  lemma {:induction false} QuietRunIsWalk(m: Machine, agent: Agent, sent: nat, limit: nat)
    requires m.pc.Yielded?
    ensures WentLike(m, Md5Walk(m.s.cache, sent, m.va, m.left, agent, limit),
                     Steps(m, QuietSteps(m.s.cache, sent, m.va, m.left, agent, limit)))
    decreases m.left
  {
    if m.left == 0 {
      StepsOne(m, Resume);
      assert Chunks(m.fed) + [] == Chunks(m.fed);
    } else {
      var e := Ensured(m.s.cache, sent, m.va, m.left, agent, limit);
      match NextTurn(e, m.va, m.left) {
        case Stop(_) => QuietStop(m, agent, sent, limit);
        case Feed(c) =>
          var check := QuietCheck(m, agent, sent, limit);
          assert e.done;
          QuietFeed(m, agent, sent, limit, e, c);
          var turned := TakeTurn(m.(s := m.s.(cache := e.regions)));
          var later := QuietSteps(e.regions, e.sent, turned.va, turned.left, agent, limit);
          assert QuietSteps(m.s.cache, sent, m.va, m.left, agent, limit) == check + later;
          hide *;
          StepsAppend(m, check, later);
          QuietRunIsWalk(turned, agent, e.sent, limit);
          WentLikeCons(m, e.regions, c, Md5Walk(e.regions, e.sent, turned.va, turned.left, agent, limit),
                       Steps(turned, later));
      }
    }
  }

  /** The answers of a sound agent whose replies are current are steps the host may take. */
  lemma {:induction false} AnswersAllowed(
    m: Machine, asked: U64, toGo: U64, agent: Agent, sent: nat, limit: nat, top: U64)
    requires m.left > 0 && asked % 4096 == 0 && asked + toGo <= top
    requires Sound(agent, top) && Current(agent, m.s.host, top)
    ensures AllAllowed(RequestNext(m, asked, toGo), AgentAnswers(asked, toGo, agent, sent, limit))
    decreases limit - sent, 1
  {
    if toGo > 0 && sent < limit {
      var g := agent(sent, asked);
      var waits := RequestNext(m, asked, toGo);
      hide NextTurn, AlignDown, TakeTurn;
      StepsOne(waits, Answer(g));
      if g.Refused? {
        AnswersAllowed(m, asked, toGo, agent, sent + 1, limit, top);
        AllowedAppend(waits, [Answer(g)], AgentAnswers(asked, toGo, agent, sent + 1, limit));
      } else {
        NextAsked(asked, toGo, agent, sent, top);
        if g.length > toGo {
          assert [Answer(g)] + [] == [Answer(g)];
        } else {
          GrantAllowed(m, asked, toGo, agent, sent, limit, top, g);
        }
      }
    }
  }

  lemma GrantAllowed(
    m: Machine, asked: U64, toGo: U64, agent: Agent, sent: nat, limit: nat, top: U64, g: Reply)
    requires m.left > 0 && asked % 4096 == 0 && 0 < toGo && asked + toGo <= top && sent < limit
    requires Sound(agent, top) && Current(agent, m.s.host, top)
    requires g == agent(sent, asked) && g.Granted? && g.length <= toGo
    requires AllAllowed(RequestNext(m, asked, toGo), [Answer(g)])
    ensures AllAllowed(RequestNext(m, asked, toGo), AgentAnswers(asked, toGo, agent, sent, limit))
    decreases limit - sent, 0
  {
    var waits, grown := RequestNext(m, asked, toGo), Grown(m, [ReplyRegion(asked, g)]);
    var ahead: U64 := Add64(AlignDown(asked, g.length), g.length);
    NextAsked(asked, toGo, agent, sent, top);
    NextAfterGrant(waits, grown, g);
    hide NextTurn, AlignDown, TakeTurn, Stepped, Sound, Current, Allowed;
    StepsOne(waits, Answer(g));
    AnswersAllowed(grown, ahead, toGo - g.length, agent, sent + 1, limit, top);
    AllowedAppend(waits, [Answer(g)], AgentAnswers(ahead, toGo - g.length, agent, sent + 1, limit));
  }

  /** The steps after the first check. */
  lemma QuietStepsUnfold(m: Machine, agent: Agent, sent: nat, limit: nat, e: Ready, check: seq<Step>)
    requires m.left > 0 && e == Ensured(m.s.cache, sent, m.va, m.left, agent, limit)
    requires check == [Resume] +
               if Lookup(m.s.cache, m.va).Some? then []
               else AgentAnswers(PageOf(m.va), Extended(m.va, m.left), agent, sent, limit)
    ensures QuietSteps(m.s.cache, sent, m.va, m.left, agent, limit) ==
            match NextTurn(e, m.va, m.left)
            case Stop(_) => check
            case Feed(c) => check + QuietSteps(e.regions, e.sent, Add64(m.va, c.len), m.left - c.len, agent, limit)
    ensures NextTurn(e, m.va, m.left).Feed? ==> e.done && NextTurn(e, m.va, m.left).chunk.len <= m.left
  {
    hide Ensured, ReadableAt, PhysAt, ChunkLength, AgentAnswers;
  }

  /** With a sound agent whose replies are current, every step of the undisturbed run is allowed:
      what is proved of all allowed runs holds of the walk of `AtcMd5`. */
  lemma {:induction false} QuietStepsAllowed(m: Machine, agent: Agent, sent: nat, limit: nat, top: U64)
    requires m.pc.Yielded? && m.va + m.left <= top
    requires Sound(agent, top) && Current(agent, m.s.host, top)
    ensures AllAllowed(m, QuietSteps(m.s.cache, sent, m.va, m.left, agent, limit))
    decreases m.left
  {
    hide Ensured, QuietSteps, NextTurn, TakeTurn, Steps, AllAllowed, AgentAnswers, Lookup, Sound, Current;
    if m.left == 0 {
      QuietEmpty(m, agent, sent, limit);
    } else {
      var e := Ensured(m.s.cache, sent, m.va, m.left, agent, limit);
      var check := QuietCheck(m, agent, sent, limit);
      QuietCheckAllowed(m, agent, sent, limit, top, check);
      QuietStepsUnfold(m, agent, sent, limit, e, check);
      var turn := NextTurn(e, m.va, m.left);
      if turn.Feed? {
        var c := turn.chunk;
        var turned := TakeTurn(m.(s := m.s.(cache := e.regions)));
        var later := QuietSteps(e.regions, e.sent, Add64(m.va, c.len), m.left - c.len, agent, limit);
        QuietFeed(m, agent, sent, limit, e, c);
        AddPlain(m.va, c.len);
        QuietStepsAllowed(turned, agent, e.sent, limit, top);
        assert AllAllowed(Steps(m, check), later);
        AllowedAppend(m, check, later);
      }
    }
  }

  lemma QuietEmpty(m: Machine, agent: Agent, sent: nat, limit: nat)
    requires m.pc.Yielded? && m.left == 0
    ensures AllAllowed(m, QuietSteps(m.s.cache, sent, m.va, m.left, agent, limit))
  {
    StepsOne(m, Resume);
  }

  lemma QuietCheckAllowed(m: Machine, agent: Agent, sent: nat, limit: nat, top: U64, check: seq<Step>)
    requires m.pc.Yielded? && 0 < m.left && m.va + m.left <= top
    requires Sound(agent, top) && Current(agent, m.s.host, top)
    requires check == [Resume] +
               if Lookup(m.s.cache, m.va).Some? then []
               else AgentAnswers(PageOf(m.va), Extended(m.va, m.left), agent, sent, limit)
    ensures AllAllowed(m, check)
  {
    hide NextTurn, Sound, Current, AgentAnswers, TakeTurn;
    StepsOne(m, Resume);
    if Lookup(m.s.cache, m.va).Some? {
      assert check == [Resume];
    } else {
      PagePlain(m.va, m.left);
      hide PageOf, Extended;
      AnswersAllowed(m, PageOf(m.va), Extended(m.va, m.left), agent, sent, limit, top);
      AllowedAppend(m, [Resume], AgentAnswers(PageOf(m.va), Extended(m.va, m.left), agent, sent, limit));
    }
  }

  // ----- What every run keeps

  /** Bytes fed so far. */
  function FedLength(fed: seq<Feeding>): nat {
    if fed == [] then 0 else FedLength(fed[..|fed| - 1]) + fed[|fed| - 1].chunk.len
  }

  /** A chunk that stays in one page and, unless an invalidation of its page was outstanding when
      it was translated, consists of the host's bytes as mapped at that moment. */
  ghost predicate FedAsMapped(f: Feeding) {
    && ChunkInPage(f.chunk)
    && (!Pending(f.at.pending, f.va / 4096) ==>
          IsTranslation(f.at.host, f.va, Addresses(f.chunk.phys, f.chunk.len)))
  }

  /** The chunks follow each other through the range, from its start on. */
  ghost predicate FedInOrder(fed: seq<Feeding>, addr: nat) {
    forall k :: 0 <= k < |fed| ==> FedAsMapped(fed[k]) && fed[k].va == addr + FedLength(fed[..k])
  }

  ghost predicate MachineInv(m: Machine, addr: U64, len: U64) {
    && CacheInv(m.s) && FedInOrder(m.fed, addr)
    && addr + len < W64 && m.va == addr + FedLength(m.fed) && m.va + m.left == addr + len
    && WalkSafe(m.va, m.left)
    && (m.pc.Requesting? ==> m.left > 0)
    && (m.pc.Ended? ==> m.pc.outcome == if m.left == 0 then Digested else Denied)
  }

  /** Whatever a natural region translates to keeps the offset in the page. */
  lemma CachedOffset(regions: seq<Region>, addr: U64)
    requires AllNatural(regions) && Lookup(regions, addr).Some?
    ensures And(PhysAt(regions, addr), PAGE - 1) == PhysAt(regions, addr) % 4096 == addr % 4096
  {
    hide And, Or, IsPow2;
    LookupFinds(regions, addr);
    NaturalTranslation(Lookup(regions, addr).value, addr);
    PageIsPow2();
    LowBits(PhysAt(regions, addr), PAGE);
  }

  /** From a safe range a turn is denied or reads up to the end of the page or of the range,
      whatever natural regions the cache holds by then. */
  lemma TurnStaysSafe(regions: seq<Region>, addr: U64, len: U64)
    requires AllNatural(regions) && 0 < len && addr + len < W64 && WalkSafe(addr, len)
    ensures match NextTurn(Ready(regions, 0, true), addr, len)
            case Stop(outcome) => outcome == Denied
            case Feed(c) =>
              && ReadableAt(regions, addr) && c.phys == PhysAt(regions, addr)
              && ChunkInPage(c) && addr % 4096 + c.len <= PAGE
              && WalkSafe(addr + c.len, len - c.len)
  {
    hide And, Region.VirtToPhys;
    if ReadableAt(regions, addr) {
      CachedOffset(regions, addr);
      SafeChunk(addr, len);
    }
  }

  /** What the cache translates is what the host maps, but for pages with an invalidation
      outstanding. */
  lemma TranslatedAsMapped(s: CacheState, addr: U64, n: nat)
    requires CacheInv(s) && Lookup(s.cache, addr).Some? && addr % 4096 + n <= PAGE
    requires !Pending(s.pending, addr / 4096)
    ensures IsTranslation(s.host, addr, Addresses(PhysAt(s.cache, addr), n))
  {
    hide Region.VirtToPhys, Region.Natural;
    LookupFinds(s.cache, addr);
    var r := Lookup(s.cache, addr).value;
    PageInside(r, addr);
    AgreeingTranslation(s.host, r, addr);
    ChunkIsTranslation(s.host, addr, n);
  }

  lemma FedOneMore(fed: seq<Feeding>, f: Feeding, addr: nat)
    requires FedInOrder(fed, addr) && FedAsMapped(f) && f.va == addr + FedLength(fed)
    ensures FedInOrder(fed + [f], addr) && FedLength(fed + [f]) == FedLength(fed) + f.chunk.len
  {
    var more := fed + [f];
    assert more[..|fed|] == fed;
    forall k | 0 <= k < |more| ensures FedAsMapped(more[k]) && more[k].va == addr + FedLength(more[..k]) {
      if k < |fed| {
        assert more[..k] == fed[..k];
      }
    }
  }

  lemma TurnFeeds(m: Machine, addr: U64, len: U64, c: Chunk)
    requires MachineInv(m.(pc := Yielded), addr, len) && 0 < c.len <= m.left
    requires ReadableAt(m.s.cache, m.va) && c.phys == PhysAt(m.s.cache, m.va)
    requires ChunkInPage(c) && m.va % 4096 + c.len <= PAGE && WalkSafe(m.va + c.len, m.left - c.len)
    ensures MachineInv(Machine(m.s, m.va + c.len, m.left - c.len, Yielded, m.fed + [Feeding(m.va, c, m.s)]),
                       addr, len)
  {
    hide CacheInv, FedInOrder, FedAsMapped, ReadableAt, PhysAt, ChunkInPage, WalkSafe, FedLength;
    FeedingIsMapped(Feeding(m.va, c, m.s));
    FedOneMore(m.fed, Feeding(m.va, c, m.s), addr);
  }

  lemma TurnKeeps(m: Machine, addr: U64, len: U64)
    requires MachineInv(m.(pc := Yielded), addr, len) && m.left > 0
    ensures MachineInv(TakeTurn(m), addr, len)
  {
    CacheIsNatural(m.s);
    TurnStaysSafe(m.s.cache, m.va, m.left);
    hide CacheInv, FedInOrder, NextTurn, ReadableAt, PhysAt, ChunkInPage, WalkSafe, FedLength, AllNatural;
    match NextTurn(Ready(m.s.cache, 0, true), m.va, m.left) {
      case Stop(_) =>
      case Feed(c) =>
        AddPlain(m.va, c.len);
        TurnFeeds(m, addr, len, c);
    }
  }

  lemma CacheIsNatural(s: CacheState)
    requires CacheInv(s)
    ensures AllNatural(s.cache)
  {
  }

  lemma FeedingIsMapped(f: Feeding)
    requires CacheInv(f.at) && ReadableAt(f.at.cache, f.va) && f.chunk.phys == PhysAt(f.at.cache, f.va)
    requires ChunkInPage(f.chunk) && f.va % 4096 + f.chunk.len <= PAGE
    ensures FedAsMapped(f)
  {
    hide CacheInv, IsTranslation, PhysAt;
    if !Pending(f.at.pending, f.va / 4096) {
      TranslatedAsMapped(f.at, f.va, f.chunk.len);
    }
  }

  lemma StepKeepsMachine(m: Machine, step: Step, addr: U64, len: U64)
    requires MachineInv(m, addr, len) && Allowed(m, step)
    ensures MachineInv(Stepped(m, step), addr, len)
  {
    hide CacheInv, FedInOrder, TakeTurn, Legal, After, WalkSafe, PageOf, Extended, AlignDown;
    match step {
      case Environment(e) => EventKeeps(m.s, e);
      case Resume =>
        if m.left > 0 {
          TurnKeeps(m, addr, len);
        }
      case Answer(reply) =>
        var e := ReplyArrives(m.pc.asked, reply);
        EventKeeps(m.s, e);
        TurnKeeps(m.(s := After(m.s, e)), addr, len);
    }
  }

  lemma {:induction false} MachineAlongRun(m: Machine, steps: seq<Step>, addr: U64, len: U64)
    requires MachineInv(m, addr, len) && AllAllowed(m, steps)
    ensures MachineInv(Steps(m, steps), addr, len)
    decreases |steps|
  {
    hide MachineInv, Stepped, Legal;
    if steps != [] {
      StepKeepsMachine(m, steps[0], addr, len);
      MachineAlongRun(Stepped(m, steps[0]), steps[1..], addr, len);
    }
  }

  /** In every run from a safe range, with any replies, remappings and invalidations at the yield
      points: each chunk stays in a page and holds the host's bytes as mapped when it was
      translated, unless an invalidation of its page was outstanding then; the chunks follow each
      other through the range; a walk that ended has digested all of it or was denied. */
  lemma ChunksAreCurrent(s: CacheState, addr: U64, len: U64, steps: seq<Step>)
    requires CacheInv(s) && addr + len < W64 && WalkSafe(addr, len)
    requires AllAllowed(Machine(s, addr, len, Yielded, []), steps)
    ensures var e := Steps(Machine(s, addr, len, Yielded, []), steps);
            && FedInOrder(e.fed, addr) && FedLength(e.fed) <= len
            && (e.pc.Ended? ==> e.pc.outcome in {Digested, Denied})
            && (e.pc == Ended(Digested) ==> FedLength(e.fed) == len)
            && (e.pc == Ended(Denied) ==> FedLength(e.fed) < len)
  {
    MachineAlongRun(Machine(s, addr, len, Yielded, []), steps, addr, len);
  }
}
