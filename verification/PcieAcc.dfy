/** The accelerator's threads, each as the work done for one event, on its registers and its
    translation cache. */
module PcieAcc {
  import opened Basics
  import opened Bits
  import opened AtcRegions
  import opened AtcHost
  import opened AtcRequests
  import opened AtcTranslate
  import opened AtcMd5
  import opened Atc

  const STATUS_DONE: U32 := 1
  const STATUS_ERR: U32 := 2

  /** The device address in the two address registers: `msb << 32 | lsb`. */
  function DeviceAddress(msb: U32, lsb: U32): nat {
    Or(msb * 0x1_0000_0000, lsb)
  }

  lemma DeviceAddressIsSum(msb: U32, lsb: U32)
    ensures DeviceAddress(msb, lsb) == Combine(msb, lsb)
  {
    PowersOfWords();
    OrIsSum(msb * 0x1_0000_0000, lsb, 32);
  }

  class Accelerator {
    const atc: TranslationCache
    var addrLsb: U32
    var addrMsb: U32
    var length: U32
    var status: U32

    constructor ()
      ensures fresh(atc) && atc.regions == [] && atc.sent == 0
      ensures addrLsb == 0 && addrMsb == 0 && length == 0 && status == 0
    {
      atc := new TranslationCache();
      addrLsb, addrMsb, length, status := 0, 0, 0, 0;
    }

    method VirtualAddress() returns (addr: U64)
      ensures addr == Combine(addrMsb, addrLsb)
    {
      DeviceAddressIsSum(addrMsb, addrLsb);
      addr := DeviceAddress(addrMsb, addrLsb);
    }

    /** `if (!m_atc.contains(addr)) m_atc.do_ats_req(addr, length)` */
    method Ensure(addr: U64, len: U64, agent: Agent, limit: nat) returns (done: bool)
      modifies atc
      ensures Ready(atc.regions, atc.sent, done) == Ensured(old(atc.regions), old(atc.sent), addr, len, agent, limit)
    {
      LookupFinds(atc.regions, addr);
      var cached := atc.Contains(addr);
      done := true;
      if !cached {
        done := atc.DoAtsReq(addr, len, agent, limit);
      }
    }

    /** Translate command: `done` is false while a request is still being retried. */
    method AtsReqThread(agent: Agent, limit: nat) returns (done: bool)
      modifies `status, atc
      ensures Ready(atc.regions, atc.sent, done) ==
              TranslateLoop(old(atc.regions), old(atc.sent), Combine(addrMsb, addrLsb), length, agent, limit)
      ensures status == if done then 1 else old(status)
    {
      var addr := VirtualAddress();
      var left: U64 := length;
      ghost var result := TranslateLoop(atc.regions, atc.sent, addr, left, agent, limit);
      while left > 0
        invariant result == TranslateLoop(atc.regions, atc.sent, addr, left, agent, limit)
        invariant status == old(status)
        decreases left
      {
        var len := left;
        done := Ensure(addr, PAGE, agent, limit);
        if !done {
          return;
        }
        if len < PAGE {
          break;
        }
        left, addr := left - PAGE, Add64(addr, PAGE);
      }
      status := STATUS_DONE;
      return true;
    }

    /** Read command: `access` is the physical address read, if the page may be read. */
    method ReadThread(agent: Agent, limit: nat) returns (done: bool, access: Option<nat>)
      modifies `status, atc
      ensures var addr := Combine(addrMsb, addrLsb);
              && Ready(atc.regions, atc.sent, done) ==
                 Ensured(old(atc.regions), old(atc.sent), addr, PAGE, agent, limit)
              && access == (if done && ReadableAt(atc.regions, addr) then Some(PhysAt(atc.regions, addr)) else None)
      ensures status == if done then 1 else old(status)
    {
      var addr := VirtualAddress();
      access := None;
      done := Ensure(addr, PAGE, agent, limit);
      if done {
        var allowed := atc.TestAttr(addr, AttrRead);
        if allowed {
          var phys := atc.VirtToPhys(addr);
          access := Some(phys);
        }
        status := STATUS_DONE;
      }
    }

    /** One iteration of the MD5 walk up to the read of a chunk. */
    method Md5Turn(addr: U64, len: U64, agent: Agent, limit: nat) returns (turn: Turn)
      requires len > 0
      modifies atc
      ensures var e := Ensured(old(atc.regions), old(atc.sent), addr, len, agent, limit);
              atc.regions == e.regions && atc.sent == e.sent && turn == NextTurn(e, addr, len)
    {
      var done := Ensure(addr, len, agent, limit);
      if !done {
        return Stop(Waiting);
      }
      var allowed := atc.TestAttr(addr, AttrRead);
      if !allowed {
        return Stop(Denied);
      }
      var phys := atc.VirtToPhys(addr);
      var n: U64 := Sub64(if len <= PAGE then len else PAGE, And(phys, PAGE - 1));
      if n == 0 {
        return Stop(Spinning);
      }
      if n > PAGE {
        return Stop(Overrun(n));
      }
      return Feed(Chunk(phys, n));
    }

    /** MD5 command: the physical reads fed to the digest and how the walk ended. `initOk` is
        the result of initialising the digest. A walk that spins, overruns its buffer or waits
        does not reach the status register. */
    method Md5Thread(initOk: bool, agent: Agent, limit: nat) returns (chunks: seq<Chunk>, outcome: Outcome)
      modifies `status, atc
      ensures initOk ==>
                Walk(atc.regions, atc.sent, chunks, outcome) ==
                Md5Walk(old(atc.regions), old(atc.sent), Combine(addrMsb, addrLsb), length, agent, limit)
      ensures !initOk ==>
                chunks == [] && outcome == Denied && atc.regions == old(atc.regions) && atc.sent == old(atc.sent)
      ensures status == match outcome case Digested => 1 case Denied => 3 case _ => old(status)
    {
      chunks := [];
      if !initOk {
        status := STATUS_ERR + STATUS_DONE;
        return chunks, Denied;
      }
      var addr := VirtualAddress();
      var len: U64 := length;
      ghost var all := Md5Walk(atc.regions, atc.sent, addr, len, agent, limit);
      ghost var rest := all;
      while len > 0
        invariant rest == Md5Walk(atc.regions, atc.sent, addr, len, agent, limit)
        invariant all == rest.(chunks := chunks + rest.chunks)
        invariant status == old(status)
        decreases len
      {
        var turn := Md5Turn(addr, len, agent, limit);
        if turn.Stop? {
          status := StatusAfter(turn.outcome, status);
          return chunks, turn.outcome;
        }
        chunks := chunks + [turn.chunk];
        addr, len := Add64(addr, turn.chunk.len), len - turn.chunk.len;
        rest := Md5Walk(atc.regions, atc.sent, addr, len, agent, limit);
      }
      status := STATUS_DONE;
      return chunks, Digested;
    }
  }

  /** The status register after a walk. */
  function StatusAfter(outcome: Outcome, was: U32): U32 {
    match outcome
    case Digested => STATUS_DONE
    case Denied => STATUS_ERR + STATUS_DONE
    case _ => was
  }

  /** End to end: a command over a safe range of readable pages that ends leaves DONE alone in the
      status register, after the host's bytes of the whole range. */
  lemma ReadableCommandIsDone(
    host: HostMap, regions: seq<Region>, sent: nat, addr: U64, len: U64, agent: Agent, limit: nat, top: U64, was: U32)
    requires Coherent(host, regions) && Sound(agent, top) && Current(agent, host, top)
    requires AllReadable(regions) && GrantsRead(agent) && addr + len <= top && WalkSafe(addr, len)
    ensures var w := Md5Walk(regions, sent, addr, len, agent, limit);
            && StatusAfter(w.outcome, was) == (if w.outcome == Waiting then was else 1)
            && (w.outcome != Waiting ==>
                  |ChunkBytes(w.chunks)| == len && IsTranslation(host, addr, ChunkBytes(w.chunks)))
  {
    WalkFeedsTranslatedBytes(host, regions, sent, addr, len, agent, limit, top);
    ReadableWalkNotDenied(host, regions, sent, addr, len, agent, limit, top);
  }

  /** End to end: a command over a safe range with a byte that may not be read leaves DONE and ERR,
      after the host's bytes of a proper prefix of the range. */
  lemma UnreadableCommandIsError(
    host: HostMap, regions: seq<Region>, sent: nat, addr: U64, len: U64, agent: Agent, top: U64, x: U64, was: U32)
    returns (limit: nat)
    requires Coherent(host, regions) && Sound(agent, top) && Current(agent, host, top) && Answers(agent, top)
    requires addr + len <= top && WalkSafe(addr, len) && addr <= x < addr + len
    requires Unreadable(regions, x) && NeverGrantsRead(agent, x)
    ensures forall more: nat | limit <= more ::
              var w := Md5Walk(regions, sent, addr, len, agent, more);
              && StatusAfter(w.outcome, was) == 3
              && |ChunkBytes(w.chunks)| < len && IsTranslation(host, addr, ChunkBytes(w.chunks))
  {
    limit := UnreadableWalkIsDenied(host, regions, sent, addr, len, agent, top, x);
    forall more: nat | limit <= more
      ensures var w := Md5Walk(regions, sent, addr, len, agent, more);
              && StatusAfter(w.outcome, was) == 3
              && |ChunkBytes(w.chunks)| < len && IsTranslation(host, addr, ChunkBytes(w.chunks))
    {
      var w := Md5Walk(regions, sent, addr, len, agent, more);
      assert w.outcome == Denied && FedWell(host, addr, len, w);
    }
  }

  /** End to end: over a coherent cache and an agent that grants current translations, a read
      command that is done reads the host's byte address, or nothing when it may not read. */
  lemma ReadReachesHostAddress(
    host: HostMap, regions: seq<Region>, sent: nat, addr: U64, agent: Agent, limit: nat, top: U64)
    requires Coherent(host, regions) && Sound(agent, top) && Current(agent, host, top)
    requires addr + PAGE <= top
    requires Ensured(regions, sent, addr, PAGE, agent, limit).done
    ensures var after := Ensured(regions, sent, addr, PAGE, agent, limit).regions;
            Mapped(host, addr) && PhysAt(after, addr) == HostPhys(host, addr)
  {
    EnsuredTranslates(host, regions, sent, addr, PAGE, agent, limit, top);
  }
}
