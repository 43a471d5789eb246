/** The stream-to-memory channel. */
module AxiS2mm {
  import opened Basics
  import opened Bits
  import opened AxiDma
  import opened AxiMm2s

  /** The bytes written so far, by address. */
  type Store = map<nat, Byte>

  function Stored(mem: Store, addr: nat, data: seq<Byte>): Store
    decreases |data|
  {
    if data == [] then mem
    else
      var n := |data| - 1;
      Stored(mem, addr, data[..n])[addr + n := data[n]]
  }

  datatype State = State(regs: Regs, copied: U32, mem: Store)

  /** A piece taken by a busy channel: what fits is stored, and the channel completes when it
      is full or the packet ends; LENGTH then reports the bytes copied. */
  function Taken(s: State, p: Piece): State {
    var r := s.regs;
    var n := if r.length >= |p.data| then |p.data| else r.length;
    var copied := Add32(s.copied, n);
    var next := WithAddress(r, Add64(Address(r), n)).(length := r.length - n);
    State(if next.length == 0 || p.eop then Complete(next).(length := copied) else next,
          copied, Stored(s.mem, Address(r), p.data[..n]))
  }

  /** Pieces arriving one after the other; an idle channel holds back the rest. */
  function Fed(s: State, pieces: seq<Piece>): State
    decreases |pieces|
  {
    if pieces == [] || s.regs.idle then s else Fed(Taken(s, pieces[0]), pieces[1..])
  }

  class S2mm {
    const ch: Channel
    var mem: Store

    constructor (mem: Store)
      ensures fresh(ch) && this.mem == mem
    {
      ch := new Channel();
      this.mem := mem;
    }

    function Snapshot(): State
      reads this, ch
    {
      State(ch.Registers(), ch.lengthCopied, mem)
    }

    /** A stream transfer. `accepted` is false while the channel is idle and the sender is
        held back. */
    method StreamTransport(p: Piece) returns (accepted: bool)
      modifies `mem, ch
      ensures accepted <==> !old(ch.Registers().idle)
      ensures Snapshot() == if accepted then Taken(old(Snapshot()), p) else old(Snapshot())
    {
      if ch.idle {
        return false;
      }
      var len := |p.data|;
      var addr: U64 := Combine(ch.addrMsb, ch.addr);
      var lenToCopy := if ch.length >= len then len else ch.length;
      mem := Stored(mem, addr, p.data[..lenToCopy]);
      ch.lengthCopied := Add32(ch.lengthCopied, lenToCopy);
      addr := Add64(addr, lenToCopy);
      ch.length := ch.length - lenToCopy;
      ch.addrMsb := High32(addr);
      ch.addr := Low32(addr);
      if ch.length == 0 || p.eop {
        ch.idle, ch.iocIrq := true, true;
        ch.length := ch.lengthCopied;
      }
      return true;
    }
  }

  /** The packet: everything up to the first end mark. */
  function PacketBytes(pieces: seq<Piece>): seq<Byte> {
    if pieces == [] then []
    else pieces[0].data + (if pieces[0].eop then [] else PacketBytes(pieces[1..]))
  }

  function Min(a: nat, b: nat): nat { if a < b then a else b }

  /** What a channel programmed for `v` bytes keeps of a packet. */
  function CutOff(v: nat, data: seq<Byte>): seq<Byte> {
    data[..Min(v, |data|)]
  }

  lemma {:induction false} StoredAppend(mem: Store, addr: nat, front: seq<Byte>, back: seq<Byte>)
    ensures Stored(Stored(mem, addr, front), addr + |front|, back) == Stored(mem, addr, front + back)
    decreases |back|
  {
    if back == [] {
      assert front + back == front;
    } else {
      var n := |back| - 1;
      StoredAppend(mem, addr, front, back[..n]);
      assert (front + back)[..|front| + n] == front + back[..n];
    }
  }

  /** What a store holds: the data on its range, the old contents elsewhere. */
  lemma {:induction false} StoredAt(mem: Store, addr: nat, data: seq<Byte>, x: nat)
    ensures x in Stored(mem, addr, data) <==> x in mem || addr <= x < addr + |data|
    ensures addr <= x < addr + |data| ==> Stored(mem, addr, data)[x] == data[x - addr]
    ensures x in mem && !(addr <= x < addr + |data|) ==> Stored(mem, addr, data)[x] == mem[x]
    decreases |data|
  {
    if data != [] {
      StoredAt(mem, addr, data[..|data| - 1], x);
    }
  }

  /** The channel at some point of a transfer of `v` bytes to `base`, with `got` stored so far. */
  ghost predicate Busy(s: State, v: nat, base: nat, mem: Store, got: seq<Byte>) {
    && !s.regs.idle
    && s.copied == |got| && s.copied + s.regs.length == v && v < W32
    && base + v < W64 && Address(s.regs) == base + |got|
    && s.mem == Stored(mem, base, got)
  }

  /** The channel after it: LENGTH, address and memory all say that exactly `got` was stored. */
  ghost predicate Ended(s: State, base: nat, mem: Store, got: seq<Byte>) {
    && s.regs.idle && s.regs.iocIrq
    && s.regs.length == s.copied == |got| && Address(s.regs) == base + |got|
    && s.mem == Stored(mem, base, got)
  }

  lemma TakenMoves(s: State, p: Piece, n: nat)
    requires n == (if s.regs.length >= |p.data| then |p.data| else s.regs.length)
    requires Address(s.regs) + n < W64 && s.copied + n < W32
    ensures var next := Taken(s, p);
            && Address(next.regs) == Address(s.regs) + n && next.copied == s.copied + n
            && next.mem == Stored(s.mem, Address(s.regs), p.data[..n])
            && (next.regs.idle <==> s.regs.idle || s.regs.length == n || p.eop)
            && (s.regs.length == n || p.eop ==> next.regs.iocIrq && next.regs.length == next.copied)
            && (!(s.regs.length == n || p.eop) ==> next.regs.length == s.regs.length - n)
  {
    AddPlain(Address(s.regs), n);
    AddressRoundTrip(s.regs, Address(s.regs) + n);
  }

  lemma TakenStores(s: State, p: Piece, v: nat, base: nat, mem: Store, got: seq<Byte>)
    requires Busy(s, v, base, mem, got)
    ensures var all := got + p.data;
            var next := Taken(s, p);
            if |all| >= v || p.eop then Ended(next, base, mem, CutOff(v, all))
            else Busy(next, v, base, mem, all)
  {
    var n := if s.regs.length >= |p.data| then |p.data| else s.regs.length;
    var all := got + p.data;
    TakenMoves(s, p, n);
    TakenMemory(s, p, n, base, mem, got);
    assert |got| + n == Min(v, |all|);
    assert all[..|all|] == all;
  }

  lemma TakenMemory(s: State, p: Piece, n: nat, base: nat, mem: Store, got: seq<Byte>)
    requires n <= |p.data| && s.mem == Stored(mem, base, got) && Address(s.regs) == base + |got|
    requires Taken(s, p).mem == Stored(s.mem, Address(s.regs), p.data[..n])
    ensures Taken(s, p).mem == Stored(mem, base, (got + p.data)[..|got| + n])
  {
    StoredAppend(mem, base, got, p.data[..n]);
    assert got + p.data[..n] == (got + p.data)[..|got| + n];
  }

  /** From the LENGTH write on, the bytes copied and LENGTH add up to the programmed length as
      long as the channel is busy; when it completes, LENGTH is the number of bytes stored, and
      these are the packet, cut off at the programmed length. */
  lemma {:induction false} PacketIsStored(
    s: State, pieces: seq<Piece>, v: nat, base: nat, mem: Store, got: seq<Byte>)
    requires Busy(s, v, base, mem, got)
    ensures var all := got + PacketBytes(pieces);
            var e := Fed(s, pieces);
            if e.regs.idle then Ended(e, base, mem, CutOff(v, all)) else Busy(e, v, base, mem, all)
    decreases |pieces|
  {
    hide Taken, Stored, CutOff, Address;
    if pieces == [] {
      assert got + [] == got;
    } else {
      var p := pieces[0];
      TakenStores(s, p, v, base, mem, got);
      if |got + p.data| >= v || p.eop {
        PacketCutOff(got, pieces, v);
        FedStops(s, pieces);
      } else {
        PacketIsStored(Taken(s, p), pieces[1..], v, base, mem, got + p.data);
        assert got + p.data + PacketBytes(pieces[1..]) == got + PacketBytes(pieces);
      }
    }
  }

  lemma FedStops(s: State, pieces: seq<Piece>)
    requires pieces != [] && !s.regs.idle && Taken(s, pieces[0]).regs.idle
    ensures Fed(s, pieces) == Taken(s, pieces[0])
  {
  }

  /** Once a piece fills the channel or ends the packet, the rest does not count. */
  lemma PacketCutOff(got: seq<Byte>, pieces: seq<Piece>, v: nat)
    requires pieces != [] && (|got + pieces[0].data| >= v || pieces[0].eop)
    ensures var all, first := got + PacketBytes(pieces), got + pieces[0].data;
            CutOff(v, all) == CutOff(v, first)
  {
    var all, first := got + PacketBytes(pieces), got + pieces[0].data;
    assert first == all[..|first|];
  }

  /** A packet that ends completes the channel. */
  lemma {:induction false} EndedPacketCompletes(
    s: State, pieces: seq<Piece>, v: nat, base: nat, mem: Store, got: seq<Byte>)
    requires Busy(s, v, base, mem, got)
    requires exists k :: 0 <= k < |pieces| && pieces[k].eop
    ensures Fed(s, pieces).regs.idle
    decreases |pieces|
  {
    var p := pieces[0];
    TakenStores(s, p, v, base, mem, got);
    if |got + p.data| >= v || p.eop {
      assert Fed(s, pieces) == Taken(s, p);
    } else {
      var k :| 0 <= k < |pieces| && pieces[k].eop;
      assert pieces[1..][k - 1].eop;
      EndedPacketCompletes(Taken(s, p), pieces[1..], v, base, mem, got + p.data);
    }
  }

  /** The channel right after the driver's LENGTH write. */
  ghost predicate Programmed(s: State, v: nat) {
    && !s.regs.idle && s.copied == 0 && s.regs.length == v && Address(s.regs) + v < W64
  }

  /** A transfer from the LENGTH write to the end of a packet. */
  lemma ReceivesPacket(s: State, pieces: seq<Piece>, v: nat)
    requires Programmed(s, v) && exists k :: 0 <= k < |pieces| && pieces[k].eop
    ensures var packet := PacketBytes(pieces);
            Ended(Fed(s, pieces), Address(s.regs), s.mem, CutOff(v, packet))
    ensures Irq(Fed(s, pieces).regs) <==> s.regs.iocIrqEn
  {
    FedKeepsEnable(s, pieces);
    var base := Address(s.regs);
    assert Stored(s.mem, base, []) == s.mem;
    EndedPacketCompletes(s, pieces, v, base, s.mem, []);
    PacketIsStored(s, pieces, v, base, s.mem, []);
    assert [] + PacketBytes(pieces) == PacketBytes(pieces);
  }

  /** Whatever arrives, the interrupt enable is kept. */
  lemma {:induction false} FedKeepsEnable(s: State, pieces: seq<Piece>)
    ensures Fed(s, pieces).regs.iocIrqEn == s.regs.iocIrqEn
    decreases |pieces|
  {
    if pieces != [] && !s.regs.idle {
      FedKeepsEnable(Taken(s, pieces[0]), pieces[1..]);
    }
  }

  /** A piece that neither fills the channel nor ends the packet reports no completion. */
  lemma BusyReportsNothing(s: State, p: Piece)
    requires !s.regs.idle && |p.data| < s.regs.length && !p.eop
    ensures var r := Taken(s, p).regs;
            !r.idle && r.iocIrq == s.regs.iocIrq && (Irq(r) <==> Irq(s.regs))
  {
  }

  /** It does not matter how a packet is cut into pieces. */
  lemma CutDoesNotMatter(s: State, pieces: seq<Piece>, pieces': seq<Piece>, v: nat)
    requires Programmed(s, v) && PacketBytes(pieces) == PacketBytes(pieces')
    requires exists k :: 0 <= k < |pieces| && pieces[k].eop
    requires exists k :: 0 <= k < |pieces'| && pieces'[k].eop
    ensures var e, e' := Fed(s, pieces), Fed(s, pieces');
            && e.mem == e'.mem && e.copied == e'.copied && e.regs.length == e'.regs.length
            && Address(e.regs) == Address(e'.regs) && e.regs.idle && e.regs.iocIrq && e'.regs.idle && e'.regs.iocIrq
  {
    ReceivesPacket(s, pieces, v);
    ReceivesPacket(s, pieces', v);
  }

  // ----- Both channels back to back

  lemma {:induction false} PacketOfPieces(pieces: seq<Piece>)
    requires pieces != [] && forall k :: 0 <= k < |pieces| ==> (pieces[k].eop <==> k == |pieces| - 1)
    ensures PacketBytes(pieces) == Flatten(pieces)
    decreases |pieces|
  {
    if |pieces| == 1 {
      assert pieces[1..] == [];
    } else {
      assert !pieces[0].eop;
      forall k | 0 <= k < |pieces[1..]| ensures pieces[1..][k].eop <==> k == |pieces[1..]| - 1 {
        assert pieces[1..][k] == pieces[k + 1];
      }
      PacketOfPieces(pieces[1..]);
    }
  }

  /** Streaming a memory range out of one channel into the other copies it: the receiver stores
      the first bytes of the range, as many as it was programmed for, and reports how many. */
  lemma LoopbackCopies(r: Regs, mem: Memory, s: State, v: nat)
    requires Address(r) + r.length < W64 && Programmed(s, v)
    ensures Ended(Fed(s, Pieces(r, mem)), Address(s.regs), s.mem,
                  Bytes(mem, Address(r), Min(v, r.length)))
  {
    var pieces := Pieces(r, mem);
    TransferSendsMemory(r, mem);
    PacketOfPieces(pieces);
    assert pieces[|pieces| - 1].eop;
    ReceivesPacket(s, pieces, v);
    var n := Min(v, r.length);
    assert Bytes(mem, Address(r), r.length)[..n] == Bytes(mem, Address(r), n);
  }
}
