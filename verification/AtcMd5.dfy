/** The MD5 page walk: which host bytes the digest is fed, and for which ranges it comes out
    right. */
module AtcMd5 {
  import opened Bits
  import opened AtcRegions
  import opened AtcHost
  import opened AtcRequests
  import opened AtcTranslate

  /** One read of physical memory fed to the digest. */
  datatype Chunk = Chunk(phys: nat, len: nat)

  /** How a walk ends: all bytes digested; a page may not be read; a chunk of no bytes, which
      repeats for ever; a chunk longer than the 4 KiB buffer, with the length as computed in 64
      bits; or a request still being retried. */
  datatype Outcome = Digested | Denied | Spinning | Overrun(len: U64) | Waiting

  datatype Walk = Walk(regions: seq<Region>, sent: nat, chunks: seq<Chunk>, outcome: Outcome)

  predicate ReadableAt(regions: seq<Region>, addr: U64) {
    Lookup(regions, addr).Some? && AttrRead in Lookup(regions, addr).value.attrs
  }

  function PhysAt(regions: seq<Region>, addr: U64): nat {
    if Lookup(regions, addr).Some? then Lookup(regions, addr).value.VirtToPhys(addr) else 0
  }

  /** The chunk length: at most a page, less the page offset, in 64-bit arithmetic. */
  function ChunkLength(len: U64, phys: nat): U64 {
    Sub64(if len <= PAGE then len else PAGE, And(phys, PAGE - 1))
  }

  /** What one iteration does once its check has ended: stop, or read a chunk. */
  datatype Turn = Stop(outcome: Outcome) | Feed(chunk: Chunk)

  function NextTurn(e: Ready, addr: U64, len: U64): (turn: Turn)
    requires len > 0
    ensures turn.Feed? ==> 0 < turn.chunk.len <= len && turn.chunk.len <= PAGE
    ensures turn != Stop(Digested)
  {
    if !e.done then Stop(Waiting)
    else if !ReadableAt(e.regions, addr) then Stop(Denied)
    else
      var n := ChunkLength(len, PhysAt(e.regions, addr));
      if n == 0 then Stop(Spinning)
      else if n > PAGE then Stop(Overrun(n))
      else Feed(Chunk(PhysAt(e.regions, addr), n))
  }

  /** What a turn does over a readable cached byte: with `m` bytes to go in the page at most and
      the byte at offset `off` of its physical page, it reads the `m - off` bytes from there when
      that is positive, reads nothing for ever when it is zero, and otherwise asks for that many
      bytes modulo 2^64, far more than the buffer holds. */
  lemma TurnByOffset(e: Ready, addr: U64, len: U64, m: nat, off: nat)
    requires 0 < len && e.done && ReadableAt(e.regions, addr)
    requires m == (if len <= 4096 then len else 4096) && off == PhysAt(e.regions, addr) % 4096
    ensures m > off ==> NextTurn(e, addr, len) == Feed(Chunk(PhysAt(e.regions, addr), m - off))
    ensures m == off ==> NextTurn(e, addr, len) == Stop(Spinning)
    ensures m < off ==> NextTurn(e, addr, len) == Stop(Overrun(0x1_0000_0000_0000_0000 + m - off))
  {
    PageIsPow2();
    LowBits(PhysAt(e.regions, addr), PAGE);
    hide And, IsPow2, PhysAt, ReadableAt;
  }

  function Md5Walk(regions: seq<Region>, sent: nat, addr: U64, len: U64, agent: Agent, limit: nat): Walk
    decreases len, 1
  {
    if len == 0 then Walk(regions, sent, [], Digested)
    else WalkOn(Ensured(regions, sent, addr, len, agent, limit), addr, len, agent, limit)
  }

  /** The rest of an iteration, and the iterations after it. */
  function WalkOn(e: Ready, addr: U64, len: U64, agent: Agent, limit: nat): Walk
    requires len > 0
    decreases len, 0
  {
    match NextTurn(e, addr, len)
    case Stop(outcome) => Walk(e.regions, e.sent, [], outcome)
    case Feed(c) => FedFirst(c, Md5Walk(e.regions, e.sent, Add64(addr, c.len), len - c.len, agent, limit))
  }

  function FedFirst(c: Chunk, rest: Walk): Walk {
    rest.(chunks := [c] + rest.chunks)
  }

  /** The ranges whose chunk lengths never go wrong. */
  predicate WalkSafe(addr: U64, len: U64) {
    len == 0 || addr % 4096 == 0 || len >= PAGE
  }

  // ----- What the digest is fed

  function Addresses(phys: nat, n: nat): seq<nat> {
    seq<nat>(n, i requires 0 <= i => phys + i)
  }

  function ChunkBytes(chunks: seq<Chunk>): seq<nat> {
    if chunks == [] then [] else Addresses(chunks[0].phys, chunks[0].len) + ChunkBytes(chunks[1..])
  }

  /** Non-empty and inside one 4 KiB page. */
  predicate ChunkInPage(c: Chunk) {
    0 < c.len && c.phys % 4096 + c.len <= PAGE
  }

  /** The first and the last byte of such a chunk are in one page. */
  lemma ChunkEndsInPage(c: Chunk)
    ensures ChunkInPage(c) <==> c.len > 0 && (c.phys + c.len - 1) / 4096 == c.phys / 4096
  {
  }

  ghost predicate IsHostByte(host: HostMap, addr: nat, phys: nat) {
    Mapped(host, addr) && phys == HostPhys(host, addr)
  }

  /** The physical addresses of the host bytes from `addr` on, in order. */
  ghost predicate IsTranslation(host: HostMap, addr: nat, bytes: seq<nat>) {
    forall i :: 0 <= i < |bytes| ==> IsHostByte(host, addr + i, bytes[i])
  }

  lemma TranslationAppend(host: HostMap, addr: nat, front: seq<nat>, back: seq<nat>)
    requires IsTranslation(host, addr, front) && IsTranslation(host, addr + |front|, back)
    ensures IsTranslation(host, addr, front + back)
  {
    forall i | 0 <= i < |front + back|
      ensures IsHostByte(host, addr + i, (front + back)[i])
    {
      if i >= |front| {
        assert IsHostByte(host, addr + |front| + (i - |front|), back[i - |front|]);
        assert addr + |front| + (i - |front|) == addr + i;
      }
    }
  }

  lemma SamePage(addr: nat, n: nat, i: nat)
    requires addr % 4096 + n <= PAGE && i < n
    ensures (addr + i) / 4096 == addr / 4096 && (addr + i) % 4096 == addr % 4096 + i
  {
  }

  /** A chunk inside the page of its first byte reads the host's bytes. */
  lemma ChunkIsTranslation(host: HostMap, addr: nat, n: nat)
    requires Mapped(host, addr) && addr % 4096 + n <= PAGE
    ensures IsTranslation(host, addr, Addresses(HostPhys(host, addr), n))
  {
    var bytes := Addresses(HostPhys(host, addr), n);
    forall i | 0 <= i < |bytes|
      ensures IsHostByte(host, addr + i, bytes[i])
    {
      SamePage(addr, n, i);
    }
  }

  /** A coherent cache in which, once the check has ended, the first byte is translated as the
      host translates it. */
  ghost predicate Translated(host: HostMap, e: Ready, addr: U64) {
    && Coherent(host, e.regions)
    && (e.done ==> Mapped(host, addr) && PhysAt(e.regions, addr) == HostPhys(host, addr)
                   && And(PhysAt(e.regions, addr), PAGE - 1) == addr % 4096
                   && Covers(e.regions, addr))
  }

  lemma EnsuredTranslates(
    host: HostMap, regions: seq<Region>, sent: nat, addr: U64, len: U64, agent: Agent, limit: nat, top: U64)
    requires Coherent(host, regions) && Sound(agent, top) && Current(agent, host, top)
    requires 0 < len && addr + len <= top
    ensures Translated(host, Ensured(regions, sent, addr, len, agent, limit), addr)
  {
    PagePlain(addr, len);
    FillCoherent(PageOf(addr), Extended(addr, len), agent, sent, limit, host, top);
    var e := Ensured(regions, sent, addr, len, agent, limit);
    if e.done {
      EnsuredCoversPage(regions, sent, addr, len, agent, limit, top);
      CoherentLookup(host, e.regions, addr);
      LookupFinds(e.regions, addr);
      NaturalTranslation(Lookup(e.regions, addr).value, addr);
    }
  }

  /** In a safe range an iteration waits, is denied or reads host bytes up to the end of the
      page or of the range, and leaves a safe range. */
  lemma SafeTurn(host: HostMap, e: Ready, addr: U64, len: U64)
    requires 0 < len && addr + len < W64 && WalkSafe(addr, len)
    requires Translated(host, e, addr)
    ensures var turn := NextTurn(e, addr, len);
            && (turn.Stop? ==> turn == Stop(if e.done then Denied else Waiting))
            && (turn == Stop(Denied) <==> e.done && !ReadableAt(e.regions, addr))
            && (turn.Feed? ==>
                  && turn.chunk.phys == HostPhys(host, addr)
                  && addr % 4096 + turn.chunk.len <= PAGE
                  && WalkSafe(addr + turn.chunk.len, len - turn.chunk.len))
  {
    if e.done {
      SafeChunk(addr, len);
    }
  }

  lemma SafeChunk(addr: U64, len: U64)
    requires 0 < len && addr + len < W64 && WalkSafe(addr, len)
    ensures var n := Sub64(if len <= PAGE then len else PAGE, addr % 4096);
            && 0 < n <= PAGE && n <= len && addr % 4096 + n <= PAGE && WalkSafe(addr + n, len - n)
  {
  }

  /** The digest got the translated bytes of a prefix of the range, in order, each chunk inside
      one page: all of the range when the walk ended well, and up to a page that may not be read
      when it was denied. */
  ghost predicate FedWell(host: HostMap, addr: nat, len: nat, w: Walk) {
    var fed := |ChunkBytes(w.chunks)|;
    && Coherent(host, w.regions)
    && IsTranslation(host, addr, ChunkBytes(w.chunks))
    && (forall c :: c in w.chunks ==> ChunkInPage(c))
    && w.outcome in {Digested, Denied, Waiting}
    && fed <= len && addr + len < W64
    && (w.outcome == Digested <==> fed == len)
    && (w.outcome == Denied ==> !ReadableAt(w.regions, addr + fed))
  }

  lemma FeedPrepends(host: HostMap, addr: nat, len: nat, c: Chunk, rest: Walk)
    requires Mapped(host, addr) && c.phys == HostPhys(host, addr)
    requires 0 < c.len <= len && addr % 4096 + c.len <= PAGE
    requires FedWell(host, addr + c.len, len - c.len, rest)
    ensures FedWell(host, addr, len, FedFirst(c, rest))
  {
    var w := FedFirst(c, rest);
    assert w.chunks[1..] == rest.chunks;
    ChunkIsTranslation(host, addr, c.len);
    TranslationAppend(host, addr, Addresses(c.phys, c.len), ChunkBytes(rest.chunks));
    assert |ChunkBytes(w.chunks)| == c.len + |ChunkBytes(rest.chunks)|;
    assert addr + |ChunkBytes(w.chunks)| == addr + c.len + |ChunkBytes(rest.chunks)|;
  }

  /** From a safe range the digest is fed the translated bytes of the range. */
  lemma {:induction false} WalkFeedsTranslatedBytes(
    host: HostMap, regions: seq<Region>, sent: nat, addr: U64, len: U64, agent: Agent, limit: nat, top: U64)
    requires Coherent(host, regions) && Sound(agent, top) && Current(agent, host, top)
    requires addr + len <= top && WalkSafe(addr, len)
    ensures FedWell(host, addr, len, Md5Walk(regions, sent, addr, len, agent, limit))
    decreases len, 1
  {
    if len > 0 {
      EnsuredTranslates(host, regions, sent, addr, len, agent, limit, top);
      WalkOnFeeds(host, Ensured(regions, sent, addr, len, agent, limit), addr, len, agent, limit, top);
    }
  }

  lemma {:induction false} WalkOnFeeds(
    host: HostMap, e: Ready, addr: U64, len: U64, agent: Agent, limit: nat, top: U64)
    requires Translated(host, e, addr) && Sound(agent, top) && Current(agent, host, top)
    requires 0 < len && addr + len <= top && WalkSafe(addr, len)
    ensures FedWell(host, addr, len, WalkOn(e, addr, len, agent, limit))
    decreases len, 0
  {
    SafeTurn(host, e, addr, len);
    match NextTurn(e, addr, len) {
      case Stop(_) =>
      case Feed(c) =>
        AddPlain(addr, c.len);
        var next := Add64(addr, c.len);
        var rest := Md5Walk(e.regions, e.sent, next, len - c.len, agent, limit);
        assert WalkOn(e, addr, len, agent, limit) == FedFirst(c, rest);
        WalkFeedsTranslatedBytes(host, e.regions, e.sent, next, len - c.len, agent, limit, top);
        FeedPrepends(host, addr, len, c, rest);
    }
  }

  // ----- Whether it ends well

  ghost predicate AllReadable(regions: seq<Region>) {
    forall r :: r in regions ==> AttrRead in r.attrs
  }

  /** Whatever is granted may be read. */
  ghost predicate GrantsRead(agent: Agent) {
    forall k: nat, a: U64 :: agent(k, a).Granted? ==> AttrRead in agent(k, a).attrs
  }

  lemma {:induction false} FillReadable(asked: U64, length: U64, agent: Agent, sent: nat, limit: nat)
    requires GrantsRead(agent)
    ensures AllReadable(Fill(asked, length, agent, sent, limit).added)
    decreases limit - sent
  {
    if length > 0 && sent < limit {
      var g := agent(sent, asked);
      if g.Refused? {
        FillReadable(asked, length, agent, sent + 1, limit);
      } else if g.length <= length {
        FillReadable(Add64(AlignDown(asked, g.length), g.length), length - g.length, agent, sent + 1, limit);
      }
    }
  }

  lemma EnsuredReadable(
    regions: seq<Region>, sent: nat, addr: U64, len: U64, agent: Agent, limit: nat)
    requires AllReadable(regions) && GrantsRead(agent)
    ensures AllReadable(Ensured(regions, sent, addr, len, agent, limit).regions)
    ensures Covers(Ensured(regions, sent, addr, len, agent, limit).regions, addr)
            ==> ReadableAt(Ensured(regions, sent, addr, len, agent, limit).regions, addr)
  {
    FillReadable(PageOf(addr), Extended(addr, len), agent, sent, limit);
    LookupFinds(Ensured(regions, sent, addr, len, agent, limit).regions, addr);
  }

  /** A walk over readable pages is never denied. */
  lemma {:induction false} ReadableWalkNotDenied(
    host: HostMap, regions: seq<Region>, sent: nat, addr: U64, len: U64, agent: Agent, limit: nat, top: U64)
    requires Coherent(host, regions) && Sound(agent, top) && Current(agent, host, top)
    requires AllReadable(regions) && GrantsRead(agent) && addr + len <= top
    ensures Md5Walk(regions, sent, addr, len, agent, limit).outcome != Denied
    decreases len
  {
    if len > 0 {
      var e := Ensured(regions, sent, addr, len, agent, limit);
      EnsuredTranslates(host, regions, sent, addr, len, agent, limit, top);
      EnsuredReadable(regions, sent, addr, len, agent, limit);
      var turn := NextTurn(e, addr, len);
      if turn.Feed? {
        AddPlain(addr, turn.chunk.len);
        ReadableWalkNotDenied(host, e.regions, e.sent, Add64(addr, turn.chunk.len), len - turn.chunk.len,
                              agent, limit, top);
      }
    }
  }

  /** A walk ends, one way or another, when no request is refused for ever. */
  lemma {:induction false} WalkEnds(
    regions: seq<Region>, sent: nat, addr: U64, len: U64, agent: Agent, top: U64) returns (limit: nat)
    requires Sound(agent, top) && Answers(agent, top) && addr + len <= top
    ensures forall more: nat | limit <= more ::
              Md5Walk(regions, sent, addr, len, agent, more).outcome != Waiting
    decreases len
  {
    limit := 0;
    if len > 0 {
      var e;
      limit, e := EnsuredTerminates(regions, sent, addr, len, agent, top);
      var turn := NextTurn(e, addr, len);
      if turn.Feed? {
        AddPlain(addr, turn.chunk.len);
        var next := Add64(addr, turn.chunk.len);
        var rest := WalkEnds(e.regions, e.sent, next, len - turn.chunk.len, agent, top);
        limit := if limit < rest then rest else limit;
      }
      forall more: nat | limit <= more
        ensures Md5Walk(regions, sent, addr, len, agent, more).outcome != Waiting
      {
        assert Md5Walk(regions, sent, addr, len, agent, more) == WalkOn(e, addr, len, agent, more);
        if turn.Feed? {
          var next := Add64(addr, turn.chunk.len);
          assert Md5Walk(e.regions, e.sent, next, len - turn.chunk.len, agent, more).outcome != Waiting;
        }
      }
    }
  }

  // ----- Pages that may not be read

  /** No region that holds the byte may be read. */
  ghost predicate Unreadable(regions: seq<Region>, x: U64) {
    forall r :: r in regions && r.Contains(x) ==> AttrRead !in r.attrs
  }

  ghost predicate NeverGrantsRead(agent: Agent, x: U64) {
    forall k: nat, a: U64 :: agent(k, a).Granted? && ReplyRegion(a, agent(k, a)).Contains(x) ==>
                               AttrRead !in agent(k, a).attrs
  }

  lemma {:induction false} FillUnreadable(asked: U64, length: U64, agent: Agent, sent: nat, limit: nat, x: U64)
    requires NeverGrantsRead(agent, x)
    ensures Unreadable(Fill(asked, length, agent, sent, limit).added, x)
    decreases limit - sent
  {
    if length > 0 && sent < limit {
      var g := agent(sent, asked);
      if g.Refused? {
        FillUnreadable(asked, length, agent, sent + 1, limit, x);
      } else if g.length <= length {
        FillUnreadable(Add64(AlignDown(asked, g.length), g.length), length - g.length, agent, sent + 1, limit, x);
      }
    }
  }

  /** An unreadable byte makes its whole page unreadable to the walk. */
  lemma UnreadableTurn(host: HostMap, e: Ready, addr: U64, len: U64, x: U64)
    requires 0 < len && addr + len < W64 && WalkSafe(addr, len) && addr <= x < addr + len
    requires Translated(host, e, addr) && Unreadable(e.regions, x)
    ensures NextTurn(e, addr, len).Feed? ==> addr + NextTurn(e, addr, len).chunk.len <= x
  {
    SafeTurn(host, e, addr, len);
    var turn := NextTurn(e, addr, len);
    if turn.Feed? && x < addr + turn.chunk.len {
      LookupFinds(e.regions, addr);
      var r := Lookup(e.regions, addr).value;
      RegionHoldsPage([r], addr) by {
        CoversOne(r, addr);
      }
      CoversOne(r, x);
    }
  }

  /** A range with a byte that may not be read is never digested. */
  lemma {:induction false} UnreadableNeverDigested(
    host: HostMap, regions: seq<Region>, sent: nat, addr: U64, len: U64, agent: Agent, limit: nat, top: U64, x: U64)
    requires Coherent(host, regions) && Sound(agent, top) && Current(agent, host, top)
    requires addr + len <= top && WalkSafe(addr, len) && addr <= x < addr + len
    requires Unreadable(regions, x) && NeverGrantsRead(agent, x)
    ensures Md5Walk(regions, sent, addr, len, agent, limit).outcome != Digested
    decreases len
  {
    var e := Ensured(regions, sent, addr, len, agent, limit);
    EnsuredTranslates(host, regions, sent, addr, len, agent, limit, top);
    FillUnreadable(PageOf(addr), Extended(addr, len), agent, sent, limit, x);
    UnreadableTurn(host, e, addr, len, x);
    SafeTurn(host, e, addr, len);
    var turn := NextTurn(e, addr, len);
    if turn.Feed? {
      AddPlain(addr, turn.chunk.len);
      UnreadableNeverDigested(host, e.regions, e.sent, Add64(addr, turn.chunk.len), len - turn.chunk.len,
                              agent, limit, top, x);
    }
  }

  /** A safe walk over a byte that may not be read ends denied, having fed the bytes before. */
  lemma UnreadableWalkIsDenied(
    host: HostMap, regions: seq<Region>, sent: nat, addr: U64, len: U64, agent: Agent, top: U64, x: U64)
    returns (limit: nat)
    requires Coherent(host, regions) && Sound(agent, top) && Current(agent, host, top) && Answers(agent, top)
    requires addr + len <= top && WalkSafe(addr, len) && addr <= x < addr + len
    requires Unreadable(regions, x) && NeverGrantsRead(agent, x)
    ensures forall more: nat | limit <= more ::
              var w := Md5Walk(regions, sent, addr, len, agent, more);
              w.outcome == Denied && FedWell(host, addr, len, w)
  {
    limit := WalkEnds(regions, sent, addr, len, agent, top);
    forall more: nat | limit <= more
      ensures var w := Md5Walk(regions, sent, addr, len, agent, more);
              w.outcome == Denied && FedWell(host, addr, len, w)
    {
      WalkFeedsTranslatedBytes(host, regions, sent, addr, len, agent, more, top);
      UnreadableNeverDigested(host, regions, sent, addr, len, agent, more, top, x);
    }
  }

  /** An unsafe range is never digested: it starts inside a page and is shorter than a page, so
      the first or the second chunk length goes wrong. */
  lemma {:induction false} UnsafeWalkNeverDigests(
    host: HostMap, regions: seq<Region>, sent: nat, addr: U64, len: U64, agent: Agent, limit: nat, top: U64)
    requires Coherent(host, regions) && Sound(agent, top) && Current(agent, host, top)
    requires addr + len <= top && !WalkSafe(addr, len)
    ensures Md5Walk(regions, sent, addr, len, agent, limit).outcome != Digested
    decreases len, 1
  {
    EnsuredTranslates(host, regions, sent, addr, len, agent, limit, top);
    UnsafeWalkOn(host, Ensured(regions, sent, addr, len, agent, limit), addr, len, agent, limit, top);
  }

  lemma {:induction false} UnsafeWalkOn(
    host: HostMap, e: Ready, addr: U64, len: U64, agent: Agent, limit: nat, top: U64)
    requires Translated(host, e, addr) && Sound(agent, top) && Current(agent, host, top)
    requires addr + len <= top && !WalkSafe(addr, len)
    ensures WalkOn(e, addr, len, agent, limit).outcome != Digested
    decreases len, 0
  {
    match NextTurn(e, addr, len) {
      case Stop(_) =>
      case Feed(c) =>
        UnsafeChunk(addr, len);
        AddPlain(addr, c.len);
        var next := Add64(addr, c.len);
        assert WalkOn(e, addr, len, agent, limit) ==
               FedFirst(c, Md5Walk(e.regions, e.sent, next, len - c.len, agent, limit));
        UnsafeWalkNeverDigests(host, e.regions, e.sent, next, len - c.len, agent, limit, top);
    }
  }

  lemma UnsafeChunk(addr: U64, len: U64)
    requires addr + len < W64 && !WalkSafe(addr, len)
    ensures var n := Sub64(len, addr % 4096);
            0 < n <= PAGE ==> n < len && !WalkSafe(addr + n, len - n)
  {
  }

  /** The walk over a coherent cache of readable pages digests a range exactly when the range
      is empty, starts on a page or is at least a page long. */
  lemma WalkDigestsIff(
    host: HostMap, regions: seq<Region>, sent: nat, addr: U64, len: U64, agent: Agent, top: U64)
    requires Coherent(host, regions) && Sound(agent, top) && Current(agent, host, top)
    requires AllReadable(regions) && GrantsRead(agent) && Answers(agent, top)
    requires addr + len <= top
    ensures (exists limit: nat :: Md5Walk(regions, sent, addr, len, agent, limit).outcome == Digested)
            <==> WalkSafe(addr, len)
  {
    if WalkSafe(addr, len) {
      var limit := WalkEnds(regions, sent, addr, len, agent, top);
      WalkFeedsTranslatedBytes(host, regions, sent, addr, len, agent, limit, top);
      ReadableWalkNotDenied(host, regions, sent, addr, len, agent, limit, top);
      assert Md5Walk(regions, sent, addr, len, agent, limit).outcome == Digested;
    } else {
      forall limit: nat ensures Md5Walk(regions, sent, addr, len, agent, limit).outcome != Digested {
        UnsafeWalkNeverDigests(host, regions, sent, addr, len, agent, limit, top);
      }
    }
  }
}
