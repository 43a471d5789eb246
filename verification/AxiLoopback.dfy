/** The memory-to-stream channel feeding the stream-to-memory channel, both on the memory behind
    one bus: a piece is read only after the one before it was stored. */
module AxiLoopback {
  import opened Basics
  import opened Bits
  import opened AxiDma
  import opened AxiMm2s
  import opened AxiS2mm

  /** The byte at an address; what was never written reads as zero. */
  function ByteAt(mem: Store, x: nat): Byte {
    if x in mem then mem[x] else 0
  }

  function View(mem: Store): Memory {
    x => ByteAt(mem, x)
  }

  /** The transfer of `tx` delivered piece by piece; once the receiver is idle it holds the
      sender back. */
  function Loopback(tx: Regs, rx: State): State
    decreases tx.length
  {
    if rx.regs.idle then rx
    else
      var next := Taken(rx, NextPiece(tx, View(rx.mem)));
      if tx.length <= BUFFER then next else Loopback(Advanced(tx), next)
  }

  /** One read of `n` bytes and one write of them. */
  function Moved(mem: Store, dst: nat, src: nat, n: nat): Store {
    Stored(mem, dst, Bytes(View(mem), src, n))
  }

  /** The memory after `n` bytes were moved in pieces of up to 2 KiB, one after the other. */
  function MovedInPieces(mem: Store, dst: nat, src: nat, n: nat): Store
    decreases n
  {
    if n <= BUFFER then Moved(mem, dst, src, n)
    else MovedInPieces(Moved(mem, dst, src, BUFFER), dst + BUFFER, src + BUFFER, n - BUFFER)
  }

  lemma BytesFront(mem: Memory, addr: nat, n: nat, k: nat)
    requires k <= n
    ensures Bytes(mem, addr, n)[..k] == Bytes(mem, addr, k)
  {
  }

  /** One piece delivered to a busy receiver. */
  lemma PieceMoves(tx: Regs, rx: State, n: nat)
    requires n == Min(PieceLength(tx), rx.regs.length)
    requires !rx.regs.idle && Address(rx.regs) + n < W64 && rx.copied + n < W32
    ensures var next := Taken(rx, NextPiece(tx, View(rx.mem)));
            && Address(next.regs) == Address(rx.regs) + n && next.copied == rx.copied + n
            && next.mem == Moved(rx.mem, Address(rx.regs), Address(tx), n)
            && (if rx.regs.length == n || tx.length <= BUFFER
                then next.regs.idle && next.regs.iocIrq && next.regs.length == next.copied
                else !next.regs.idle && next.regs.length == rx.regs.length - n)
  {
    TakenMoves(rx, NextPiece(tx, View(rx.mem)), n);
    BytesFront(View(rx.mem), Address(tx), PieceLength(tx), n);
  }

  lemma SenderAdvances(tx: Regs)
    requires tx.length > BUFFER && Address(tx) + BUFFER < W64
    ensures Address(Advanced(tx)) == Address(tx) + BUFFER && Advanced(tx).length == tx.length - BUFFER
  {
    AddPlain(Address(tx), BUFFER);
    AdvancedAddress(tx);
  }

  /** The receiver ends idle, having moved as many bytes as it had room for, and says so. */
  lemma {:induction false} LoopbackMoves(tx: Regs, rx: State, n: nat)
    requires !rx.regs.idle && n == Min(rx.regs.length, tx.length)
    requires Address(tx) + tx.length < W64 && Address(rx.regs) + rx.regs.length < W64
    requires rx.copied + rx.regs.length < W32
    ensures var e := Loopback(tx, rx);
            && e.regs.idle && e.regs.iocIrq && e.regs.length == e.copied == rx.copied + n
            && Address(e.regs) == Address(rx.regs) + n
            && e.mem == MovedInPieces(rx.mem, Address(rx.regs), Address(tx), n)
    decreases tx.length
  {
    hide Taken, NextPiece, Moved, Advanced, Address;
    PieceMoves(tx, rx, Min(PieceLength(tx), rx.regs.length));
    if tx.length > BUFFER {
      SenderAdvances(tx);
      if rx.regs.length > BUFFER {
        LoopbackMoves(Advanced(tx), Taken(rx, NextPiece(tx, View(rx.mem))), n - BUFFER);
      }
    }
  }

  // ----- When it is a copy

  predicate LoopbackSafe(dst: nat, src: nat, n: nat) {
    dst <= src || src + n <= dst || n <= BUFFER
  }

  /** Where the byte at `x` comes from when `[src, src + n)` is copied to `dst`. */
  function Origin(dst: nat, src: nat, n: nat, x: nat): nat {
    if dst <= x < dst + n then src + (x - dst) else x
  }

  ghost predicate IsCopy(before: Store, after: Store, dst: nat, src: nat, n: nat) {
    forall x: nat :: ByteAt(after, x) == ByteAt(before, Origin(dst, src, n, x))
  }

  lemma MovedByte(mem: Store, dst: nat, src: nat, n: nat, x: nat)
    ensures ByteAt(Moved(mem, dst, src, n), x) == ByteAt(mem, Origin(dst, src, n, x))
  {
    hide Stored;
    StoredAt(mem, dst, Bytes(View(mem), src, n), x);
  }

  lemma {:induction false} SafeLoopbackByte(mem: Store, dst: nat, src: nat, n: nat, x: nat)
    requires LoopbackSafe(dst, src, n)
    ensures ByteAt(MovedInPieces(mem, dst, src, n), x) == ByteAt(mem, Origin(dst, src, n, x))
    decreases n
  {
    hide Moved, ByteAt;
    if n <= BUFFER {
      MovedByte(mem, dst, src, n, x);
    } else {
      var y := Origin(dst + BUFFER, src + BUFFER, n - BUFFER, x);
      SafeLoopbackByte(Moved(mem, dst, src, BUFFER), dst + BUFFER, src + BUFFER, n - BUFFER, x);
      MovedByte(mem, dst, src, BUFFER, y);
      assert Origin(dst, src, BUFFER, y) == Origin(dst, src, n, x);
    }
  }

  lemma SafeLoopbackIsCopy(mem: Store, dst: nat, src: nat, n: nat)
    requires LoopbackSafe(dst, src, n)
    ensures IsCopy(mem, MovedInPieces(mem, dst, src, n), dst, src, n)
  {
    hide MovedInPieces, ByteAt, Origin;
    forall x: nat ensures ByteAt(MovedInPieces(mem, dst, src, n), x) == ByteAt(mem, Origin(dst, src, n, x)) {
      SafeLoopbackByte(mem, dst, src, n, x);
    }
  }

  ghost predicate AllZero(mem: Store) {
    forall x: nat :: ByteAt(mem, x) == 0
  }

  lemma ZeroMoves(mem: Store, dst: nat, src: nat, n: nat)
    requires AllZero(mem)
    ensures AllZero(Moved(mem, dst, src, n))
  {
    hide Moved, ByteAt, Origin;
    forall x: nat ensures ByteAt(Moved(mem, dst, src, n), x) == 0 {
      MovedByte(mem, dst, src, n, x);
    }
  }

  lemma {:induction false} ZeroStaysZero(mem: Store, dst: nat, src: nat, n: nat)
    requires AllZero(mem)
    ensures AllZero(MovedInPieces(mem, dst, src, n))
    decreases n
  {
    hide Moved, ByteAt, AllZero;
    if n <= BUFFER {
      ZeroMoves(mem, dst, src, n);
    } else {
      ZeroMoves(mem, dst, src, BUFFER);
      ZeroStaysZero(Moved(mem, dst, src, BUFFER), dst + BUFFER, src + BUFFER, n - BUFFER);
    }
  }

  /** A memory on which an unsafe loopback goes wrong: its one non-zero byte is overwritten by
      the first piece before it is read. */
  lemma UnsafeLoopbackDiffers(dst: nat, src: nat, n: nat) returns (mem: Store)
    requires !LoopbackSafe(dst, src, n)
    ensures !IsCopy(mem, MovedInPieces(mem, dst, src, n), dst, src, n)
  {
    var j := if dst - src > BUFFER then dst - src else BUFFER;
    mem := map[src + j := 1];
    var first := Moved(mem, dst, src, BUFFER);
    hide Moved, MovedInPieces;
    forall x: nat ensures ByteAt(first, x) == 0 {
      MovedByte(mem, dst, src, BUFFER, x);
    }
    ZeroStaysZero(first, dst + BUFFER, src + BUFFER, n - BUFFER);
    assert ByteAt(MovedInPieces(mem, dst, src, n), dst + j) == 0;
    assert ByteAt(mem, Origin(dst, src, n, dst + j)) == 1;
  }

  /** The whole memory ends as a copy of the range, whatever it held at the start. */
  ghost predicate CopiesEveryMemory(tx: Regs, rx: State, n: nat) {
    forall mem: Store ::
      IsCopy(mem, Loopback(tx, rx.(mem := mem)).mem, Address(rx.regs), Address(tx), n)
  }

  /** A loopback ends with LENGTH saying how many bytes were moved, the fewer of the programmed
      and the sent ones. On every memory these are a copy of the range exactly when the
      destination does not lie inside the source range behind its start, or one piece does it all. */
  lemma LoopbackCopiesIff(tx: Regs, rx: State, v: nat)
    requires Address(tx) + tx.length < W64 && Programmed(rx, v)
    ensures var n := Min(v, tx.length);
            && Loopback(tx, rx).regs.idle && Loopback(tx, rx).regs.length == n
            && Address(Loopback(tx, rx).regs) == Address(rx.regs) + n
            && (CopiesEveryMemory(tx, rx, n) <==> LoopbackSafe(Address(rx.regs), Address(tx), n))
  {
    var n, dst, src := Min(v, tx.length), Address(rx.regs), Address(tx);
    LoopbackMoves(tx, rx, n);
    forall mem: Store ensures Loopback(tx, rx.(mem := mem)).mem == MovedInPieces(mem, dst, src, n) {
      LoopbackMoves(tx, rx.(mem := mem), n);
    }
    if LoopbackSafe(dst, src, n) {
      forall mem: Store {
        SafeLoopbackIsCopy(mem, dst, src, n);
      }
    } else {
      var mem := UnsafeLoopbackDiffers(dst, src, n);
      assert !IsCopy(mem, Loopback(tx, rx.(mem := mem)).mem, dst, src, n);
    }
  }
}
