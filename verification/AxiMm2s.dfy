/** The memory-to-stream channel. */
module AxiMm2s {
  import opened Basics
  import opened Bits
  import opened AxiDma

  const BUFFER: U32 := 2048

  /** The memory a channel reads. */
  type Memory = nat -> Byte

  function Bytes(mem: Memory, addr: nat, n: nat): seq<Byte> {
    seq<Byte>(n, i requires 0 <= i => mem(addr + i))
  }

  function PieceLength(r: Regs): U32 {
    if r.length > BUFFER then BUFFER else r.length
  }

  /** The piece one loop iteration sends. */
  function NextPiece(r: Regs, mem: Memory): Piece {
    Piece(Bytes(mem, Address(r), PieceLength(r)), PieceLength(r) == r.length)
  }

  /** The registers after the iteration: advanced, and completed when nothing is left. */
  function Advanced(r: Regs): Regs {
    var n := PieceLength(r);
    var next := WithAddress(r, Add64(Address(r), n)).(length := r.length - n);
    if next.length == 0 then Complete(next) else next
  }

  /** All pieces of the transfer under way, and the registers at its end. */
  function Pieces(r: Regs, mem: Memory): seq<Piece>
    decreases r.length
  {
    if r.length <= BUFFER then [NextPiece(r, mem)]
    else [NextPiece(r, mem)] + Pieces(Advanced(r), mem)
  }

  function AtEnd(r: Regs): Regs
    decreases r.length
  {
    if r.length <= BUFFER then Advanced(r) else AtEnd(Advanced(r))
  }

  class Mm2s {
    const ch: Channel
    var stream: seq<Piece>

    constructor ()
      ensures fresh(ch) && ch.Registers() == Regs(false, false, false, 0, 0, 0) && stream == []
    {
      ch := new Channel();
      stream := [];
    }

    /** One iteration of the copy loop after its wait: the source asserts it is not idle. */
    method CopyPiece(mem: Memory)
      requires !ch.Registers().idle
      modifies `stream, ch
      ensures stream == old(stream) + [NextPiece(old(ch.Registers()), mem)]
      ensures ch.Registers() == Advanced(old(ch.Registers()))
    {
      var tlen := if ch.length > BUFFER then BUFFER else ch.length;
      var eop := tlen == ch.length;
      var addr: U64 := Combine(ch.addrMsb, ch.addr);
      var buf := Bytes(mem, addr, tlen);
      stream := stream + [Piece(buf, eop)];
      addr := Add64(addr, tlen);
      ch.length := ch.length - tlen;
      ch.addr := Low32(addr);
      ch.addrMsb := High32(addr);
      if ch.length == 0 {
        ch.idle, ch.iocIrq := true, true;
      }
    }

    /** The iteration as one step of a transfer: what is left goes on where it stopped. */
    method CopyNext(mem: Memory)
      requires !ch.Registers().idle
      modifies `stream, ch
      ensures stream + Rest(ch.Registers(), mem) == old(stream) + Pieces(old(ch.Registers()), mem)
      ensures RestEnd(ch.Registers()) == AtEnd(old(ch.Registers()))
      ensures ch.length != 0 ==> !ch.Registers().idle && ch.length < old(ch.length)
    {
      hide NextPiece, Advanced, Pieces, AtEnd, Rest, RestEnd;
      TransferUnfolds(ch.Registers(), mem);
      CopyPiece(mem);
    }

    /** The copy loop from a wake-up to the next wait. */
    method DoDmaCopy(mem: Memory)
      requires !ch.Registers().idle
      modifies `stream, ch
      ensures stream == old(stream) + Pieces(old(ch.Registers()), mem)
      ensures ch.Registers() == AtEnd(old(ch.Registers()))
    {
      ghost var all, end := stream + Pieces(ch.Registers(), mem), AtEnd(ch.Registers());
      CopyNext(mem);
      while ch.length != 0
        invariant ch.length != 0 ==> !ch.Registers().idle
        invariant all == stream + Rest(ch.Registers(), mem)
        invariant end == RestEnd(ch.Registers())
        decreases ch.length
      {
        CopyNext(mem);
      }
    }
  }

  /** What is still to be sent, and the end, of a transfer that may just have ended. */
  function Rest(r: Regs, mem: Memory): seq<Piece> {
    if r.length == 0 then [] else Pieces(r, mem)
  }

  function RestEnd(r: Regs): Regs {
    if r.length == 0 then r else AtEnd(r)
  }

  /** One iteration and what is left after it. */
  lemma TransferUnfolds(r: Regs, mem: Memory)
    requires !r.idle
    ensures var next := Advanced(r);
            && Pieces(r, mem) == [NextPiece(r, mem)] + Rest(next, mem)
            && AtEnd(r) == RestEnd(next)
            && (next.length != 0 ==> !next.idle && next.length < r.length)
  {
    NotIdleBeforeEnd(r);
  }

  /** Advancing leaves the channel busy as long as bytes are left. */
  lemma NotIdleBeforeEnd(r: Regs)
    requires !r.idle
    ensures Advanced(r).idle <==> r.length <= BUFFER
    ensures r.length <= BUFFER <==> Advanced(r).length == 0
  {
  }

  // ----- What a transfer sends

  function Flatten(pieces: seq<Piece>): seq<Byte> {
    if pieces == [] then [] else pieces[0].data + Flatten(pieces[1..])
  }

  lemma BytesAppend(mem: Memory, addr: nat, n: nat, m: nat)
    ensures Bytes(mem, addr, n) + Bytes(mem, addr + n, m) == Bytes(mem, addr, n + m)
  {
    var whole := Bytes(mem, addr, n + m);
    forall i | 0 <= i < |whole|
      ensures (Bytes(mem, addr, n) + Bytes(mem, addr + n, m))[i] == whole[i]
    {
      if i >= n {
        assert addr + n + (i - n) == addr + i;
      }
    }
  }

  lemma AdvancedAddress(r: Regs)
    ensures Address(Advanced(r)) == Add64(Address(r), PieceLength(r))
  {
    AddressRoundTrip(r, Add64(Address(r), PieceLength(r)));
  }

  /** The pieces of a transfer, concatenated, are the memory from the start address on; each is
      at most 2 KiB, only the last may be shorter and only the last ends the packet. */
  lemma {:induction false} TransferSendsMemory(r: Regs, mem: Memory)
    requires Address(r) + r.length < W64
    ensures var ps := Pieces(r, mem);
            && Flatten(ps) == Bytes(mem, Address(r), r.length)
            && |ps| == (if r.length == 0 then 1 else (r.length + 2047) / 2048)
            && (forall k :: 0 <= k < |ps| ==> (ps[k].eop <==> k == |ps| - 1))
            && (forall k :: 0 <= k < |ps| - 1 ==> |ps[k].data| == BUFFER)
    decreases r.length
  {
    if r.length <= BUFFER {
      assert Pieces(r, mem)[1..] == [];
      PieceCount(r.length);
    } else {
      AddPlain(Address(r), BUFFER);
      AdvancedAddress(r);
      var next := Advanced(r);
      TransferSendsMemory(next, mem);
      assert Pieces(r, mem)[1..] == Pieces(next, mem);
      BytesAppend(mem, Address(r), BUFFER, next.length);
      PieceCount(r.length);
    }
  }

  lemma PieceCount(length: nat)
    ensures 0 < length <= BUFFER ==> (length + 2047) / 2048 == 1
    ensures length > BUFFER ==> (length + 2047) / 2048 == 1 + (length - BUFFER + 2047) / 2048
  {
  }

  /** The registers after `k` pieces. */
  function AfterPieces(r: Regs, k: nat): Regs
    decreases k
  {
    if k == 0 then r else AfterPieces(Advanced(r), k - 1)
  }

  /** Until the last piece the channel stays busy and reports no completion: LENGTH and the address
      pair alone move, by 2 KiB a piece. */
  lemma {:induction false} BusyUntilLastPiece(r: Regs, k: nat)
    requires !r.idle && 2048 * k < r.length
    ensures var m := AfterPieces(r, k);
            && m.length == r.length - 2048 * k && !m.idle
            && m.iocIrq == r.iocIrq && m.iocIrqEn == r.iocIrqEn && (Irq(m) <==> Irq(r))
    ensures Address(r) + 2048 * k < W64 ==> Address(AfterPieces(r, k)) == Address(r) + 2048 * k
    decreases k
  {
    if k > 0 {
      AdvancedAddress(r);
      BusyUntilLastPiece(Advanced(r), k - 1);
    }
  }

  /** A transfer from the driver's writes to its end: the memory at the 64-bit address written goes
      out, and the interrupt line is raised exactly when it was enabled. */
  lemma DriverTransfers(r: Regs, en: bool, lo: U32, hi: U32, n: U32, mem: Memory)
    requires 0x1_0000_0000 * hi + lo + n < W64
    ensures var s := SetUp(r, en, lo, hi, n);
            && Flatten(Pieces(s, mem)) == Bytes(mem, 0x1_0000_0000 * hi + lo, n)
            && (Irq(AtEnd(s)) <==> en) && AtEnd(s).idle && AtEnd(s).length == 0
            && Address(AtEnd(s)) == 0x1_0000_0000 * hi + lo + n
  {
    var s := SetUp(r, en, lo, hi, n);
    SetUpChannel(r, en, lo, hi, n);
    hide SetUp, Pieces, AtEnd;
    TransferSendsMemory(s, mem);
    TransferEnd(s);
    AddPlain(Address(s), n);
  }

  /** At the end the address pair has moved by the whole length, carrying across 32 bits,
      nothing is left, and completion is flagged. */
  lemma {:induction false} TransferEnd(r: Regs)
    ensures var e := AtEnd(r);
            && Address(e) == Add64(Address(r), r.length)
            && e.length == 0 && e.idle && e.iocIrq && e.iocIrqEn == r.iocIrqEn
            && (Irq(e) <==> r.iocIrqEn)
    decreases r.length
  {
    AdvancedAddress(r);
    if r.length > BUFFER {
      TransferEnd(Advanced(r));
      WrapTwice(Address(r), BUFFER, r.length - BUFFER);
    }
  }

  lemma WrapTwice(a: U64, b: U64, c: U64)
    requires b + c < W64
    ensures Add64(Add64(a, b), c) == Add64(a, b + c)
  {
  }

  // ----- The copy thread and the driver interleaved

  /** `parked`: the thread waits for the copy event. `started`: LENGTH was written before. */
  datatype Thread = Thread(regs: Regs, parked: bool, started: bool)

  datatype Step = Driver(w: RegisterWrite) | Iterate

  /** The driver writes LENGTH only to an idle or freshly reset channel. */
  predicate Allowed(t: Thread, s: Step) {
    match s
    case Driver(w) => w.WriteLength? ==> t.regs.idle || !t.started
    case Iterate => !t.parked
  }

  function Stepped(t: Thread, s: Step): Thread {
    match s
    case Driver(w) =>
      Thread(Written(t.regs, w), t.parked && !w.WriteLength?, t.started || w.WriteLength?)
    case Iterate =>
      var next := Advanced(t.regs);
      Thread(next, next.length == 0, t.started)
  }

  function Steps(t: Thread, steps: seq<Step>): Thread
    decreases |steps|
  {
    if steps == [] then t else Steps(Stepped(t, steps[0]), steps[1..])
  }

  ghost predicate AllAllowed(t: Thread, steps: seq<Step>)
    decreases |steps|
  {
    steps == [] || (Allowed(t, steps[0]) && AllAllowed(Stepped(t, steps[0]), steps[1..]))
  }

  predicate ThreadInv(t: Thread) {
    && (t.started ==> (t.parked <==> t.regs.idle))
    && (!t.started ==> t.parked && !t.regs.idle)
    && (t.parked ==> t.regs.length == 0)
  }

  lemma StepKeepsThread(t: Thread, s: Step)
    requires ThreadInv(t) && Allowed(t, s)
    ensures ThreadInv(Stepped(t, s))
  {
    match s {
      case Driver(_) =>
      case Iterate => NotIdleBeforeEnd(t.regs);
    }
  }

  /** The not-idle assertion of the copy loop never fails, in any interleaving of the thread
      with a driver that writes LENGTH only to an idle or freshly reset channel. */
  lemma {:induction false} NeverCopiesWhileIdle(t: Thread, steps: seq<Step>)
    requires ThreadInv(t) && AllAllowed(t, steps)
    ensures var e := Steps(t, steps); ThreadInv(e) && (!e.parked ==> !e.regs.idle)
    decreases |steps|
  {
    if steps != [] {
      StepKeepsThread(t, steps[0]);
      NeverCopiesWhileIdle(Stepped(t, steps[0]), steps[1..]);
    }
  }
}
