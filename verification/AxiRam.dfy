/** The AXI4 RAM as registers that a clock edge updates in place, and the step functions that
    say what one edge does. */
module AxiRam {
  import opened Basics
  import opened AxiTypes

  datatype WriteState = WIdle | WBurst | WResp
  datatype ReadState = RIdle | RBurst

  /** Registers of the write channels (AW, W, B). */
  datatype WriteRegs = WriteRegs(
    state: WriteState,
    id: Byte, addr: Byte, count: Byte, size: SizeCode, kind: BurstKind,
    awready: bool, wready: bool, bid: Byte, bvalid: bool)

  /** Registers of the read channels (AR, R). */
  datatype ReadRegs = ReadRegs(
    state: ReadState,
    id: Byte, addr: Byte, count: Byte, size: SizeCode, kind: BurstKind,
    arready: bool, rid: Byte, rdata: Word, rlast: bool, rvalid: bool)

  // ----- Handshakes visible at a clock edge

  predicate AwFires(w: WriteRegs, i: Inputs) { w.awready && i.awvalid }

  predicate WFires(w: WriteRegs, i: Inputs) { w.wready && i.wvalid }

  predicate BFires(w: WriteRegs, i: Inputs) { w.bvalid && i.bready }

  predicate ArFires(r: ReadRegs, i: Inputs) { r.arready && i.arvalid }

  predicate RFires(r: ReadRegs, i: Inputs) { r.rvalid && i.rready }

  // ----- One clock edge

  function Advance(addr: Byte, size: SizeCode, kind: BurstKind): Byte {
    if kind == FIXED then addr else (addr + NumberBytes(size)) % 256
  }

  function ResetWrite(w: WriteRegs): WriteRegs {
    w.(state := WIdle, awready := false, wready := false, bvalid := false)
  }

  function ResetRead(r: ReadRegs): ReadRegs {
    r.(state := RIdle, arready := false, rvalid := false)
  }

  /** Offers the response of the burst just finished, or parks it while an earlier one waits. */
  function Respond(w: WriteRegs, i: Inputs): WriteRegs {
    if i.bready || !w.bvalid then w.(state := WIdle, awready := true, wready := false, bid := w.id, bvalid := true)
    else w.(state := WResp, awready := false, wready := false)
  }

  /** Next write registers when reset is not asserted. */
  function WriteNext(w: WriteRegs, i: Inputs): WriteRegs {
    var bvalid := w.bvalid && !i.bready;
    match w.state
    case WIdle =>
      if AwFires(w, i) then
        WriteRegs(WBurst, i.aw.id, i.aw.addr, i.aw.len, ClippedSize(i.aw.size), i.aw.kind, false, true, w.bid, bvalid)
      else w.(awready := true, wready := false, bvalid := bvalid)
    case WBurst =>
      if !WFires(w, i) then w.(awready := false, wready := true, bvalid := bvalid)
      else
        var stepped := w.(addr := Advance(w.addr, w.size, w.kind), count := (w.count - 1) % 256);
        if w.count > 0 then stepped.(awready := false, wready := true, bvalid := bvalid) else Respond(stepped, i)
    case WResp => Respond(w, i)
  }

  function WriteStep(w: WriteRegs, i: Inputs): WriteRegs {
    if i.rstN then WriteNext(w, i) else ResetWrite(WriteNext(w, i))
  }

  /** The memory after the edge; the write enable does not look at reset. */
  function MemoryStep(m: Memory, w: WriteRegs, i: Inputs): Memory {
    if w.state == WBurst && WFires(w, i) then m[w.addr / 4 := Merge(m[w.addr / 4], i.w)] else m
  }

  /** A new read beat is loaded when a burst is under way and the output register is free. */
  predicate Loads(r: ReadRegs, i: Inputs) {
    r.state == RBurst && (i.rready || !r.rvalid)
  }

  function ReadNext(r: ReadRegs, m: Memory, i: Inputs): ReadRegs {
    var rvalid := r.rvalid && !i.rready;
    match r.state
    case RIdle =>
      if ArFires(r, i) then
        ReadRegs(RBurst, i.ar.id, i.ar.addr, i.ar.len, ClippedSize(i.ar.size), i.ar.kind, false,
                 r.rid, r.rdata, r.rlast, rvalid)
      else r.(arready := true, rvalid := rvalid)
    case RBurst =>
      if !Loads(r, i) then r.(arready := false, rvalid := rvalid)
      else r.(state := if r.count > 0 then RBurst else RIdle,
              addr := Advance(r.addr, r.size, r.kind), count := (r.count - 1) % 256,
              arready := r.count == 0,
              rid := r.id, rdata := m[r.addr / 4], rlast := r.count == 0, rvalid := true)
  }

  function ReadStep(r: ReadRegs, m: Memory, i: Inputs): ReadRegs {
    if i.rstN then ReadNext(r, m, i) else ResetRead(ReadNext(r, m, i))
  }

  /** The initial memory: every word holds the index of the first word of its row of eight. */
  function InitialMemory(): Memory {
    seq<Word>(64, j requires 0 <= j < 64 => [j / 8 * 8, 0, 0, 0])
  }

  /** Eight rows of eight words, each row filled with the number of its first word. */
  lemma InitialRows(row: nat, column: nat)
    requires row < 8 && column < 8
    ensures InitialMemory()[8 * row + column] == [8 * row, 0, 0, 0]
  {
    assert (8 * row + column) / 8 == row;
  }

  /** A write beat is stored at an edge with reset as at one without. */
  lemma ResetDoesNotStopWrites(m: Memory, w: WriteRegs, i: Inputs)
    ensures MemoryStep(m, w, i.(rstN := true)) == MemoryStep(m, w, i.(rstN := false))
    ensures w.state.WBurst? && w.wready && i.wvalid ==>
              MemoryStep(m, w, i)[w.addr / 4] == Merge(m[w.addr / 4], i.w)
  {
  }

  class Axi4Ram {
    var writeState: WriteState
    var writeId: Byte
    var writeAddr: Byte
    var writeCount: Byte
    var writeSize: SizeCode
    var writeKind: BurstKind
    var awready: bool
    var wready: bool
    var bid: Byte
    var bvalid: bool

    var readState: ReadState
    var readId: Byte
    var readAddr: Byte
    var readCount: Byte
    var readSize: SizeCode
    var readKind: BurstKind
    var arready: bool
    var rid: Byte
    var rdata: Word
    var rlast: bool
    var rvalid: bool

    const mem: array<Word>

    ghost predicate Valid() {
      mem.Length == 64
    }

    function Write(): WriteRegs
      reads `writeState, `writeId, `writeAddr, `writeCount, `writeSize, `writeKind
      reads `awready, `wready, `bid, `bvalid
    {
      WriteRegs(writeState, writeId, writeAddr, writeCount, writeSize, writeKind, awready, wready, bid, bvalid)
    }

    function Read(): ReadRegs
      reads `readState, `readId, `readAddr, `readCount, `readSize, `readKind
      reads `arready, `rid, `rdata, `rlast, `rvalid
    {
      ReadRegs(readState, readId, readAddr, readCount, readSize, readKind, arready, rid, rdata, rlast, rvalid)
    }

    function Stored(): Memory
      requires Valid()
      reads mem
    {
      mem[..]
    }

    /** Power-on: the register initialisers and the two nested initial loops. */
    constructor ()
      ensures Valid() && fresh(mem)
      ensures Write() == WriteRegs(WIdle, 0, 0, 0, 0, 0, false, false, 0, false)
      ensures Read() == ReadRegs(RIdle, 0, 0, 0, 0, 0, false, 0, ZERO_WORD, false, false)
      ensures Stored() == InitialMemory()
    {
      writeState, writeId, writeAddr, writeCount, writeSize, writeKind := WIdle, 0, 0, 0, 0, 0;
      awready, wready, bid, bvalid := false, false, 0, false;
      readState, readId, readAddr, readCount, readSize, readKind := RIdle, 0, 0, 0, 0, 0;
      arready, rid, rdata, rlast, rvalid := false, 0, ZERO_WORD, false, false;
      mem := new Word[64](_ => ZERO_WORD);
      new;
      var i := 0;
      while i < 64
        modifies mem
        invariant 0 <= i <= 64 && i % 8 == 0
        invariant forall k :: 0 <= k < i ==> mem[k] == InitialMemory()[k]
      {
        var j := i;
        while j < i + 8
          modifies mem
          invariant i <= j <= i + 8
          invariant forall k :: 0 <= k < j ==> mem[k] == InitialMemory()[k]
        {
          mem[j] := [i, 0, 0, 0];
          j := j + 1;
        }
        i := i + 8;
      }
    }

    /** The write channels' combinational block: the next register values and the memory
        write enable. */
    method WriteBlock(i: Inputs) returns (next: WriteRegs, wrEn: bool)
      ensures next == WriteNext(Write(), i)
      ensures wrEn == (writeState == WBurst && WFires(Write(), i))
    {
      var state, id, addr, count, size, kind := WIdle, writeId, writeAddr, writeCount, writeSize, writeKind;
      var awreadyNext, wreadyNext, bidNext, bvalidNext := false, false, bid, bvalid && !i.bready;
      wrEn := false;
      match writeState {
        case WIdle =>
          awreadyNext := true;
          if awready && i.awvalid {
            id, addr, count, kind := i.aw.id, i.aw.addr, i.aw.len, i.aw.kind;
            size := if i.aw.size < 2 then i.aw.size else 2;
            awreadyNext, wreadyNext := false, true;
            state := WBurst;
          } else {
            state := WIdle;
          }
        case WBurst =>
          wreadyNext := true;
          if wready && i.wvalid {
            wrEn := true;
            if writeKind != FIXED {
              addr := (writeAddr + NumberBytes(writeSize)) % 256;
            }
            count := (writeCount - 1) % 256;
            if writeCount > 0 {
              state := WBurst;
            } else {
              wreadyNext := false;
              if i.bready || !bvalid {
                bidNext, bvalidNext, awreadyNext := writeId, true, true;
                state := WIdle;
              } else {
                state := WResp;
              }
            }
          } else {
            state := WBurst;
          }
        case WResp =>
          if i.bready || !bvalid {
            bidNext, bvalidNext, awreadyNext := writeId, true, true;
            state := WIdle;
          } else {
            state := WResp;
          }
      }
      next := WriteRegs(state, id, addr, count, size, kind, awreadyNext, wreadyNext, bidNext, bvalidNext);
    }

    /** The read channels' combinational block; `rdEn` asks for a memory sample. */
    method ReadBlock(i: Inputs) returns (next: ReadRegs, rdEn: bool)
      requires Valid()
      ensures rdEn == Loads(Read(), i)
      ensures next.(rdata := if rdEn then mem[readAddr / 4] else rdata) == ReadNext(Read(), Stored(), i)
    {
      var state, id, addr, count, size, kind := RIdle, readId, readAddr, readCount, readSize, readKind;
      var arreadyNext, ridNext, rlastNext, rvalidNext := false, rid, rlast, rvalid && !i.rready;
      rdEn := false;
      match readState {
        case RIdle =>
          arreadyNext := true;
          if arready && i.arvalid {
            id, addr, count, kind := i.ar.id, i.ar.addr, i.ar.len, i.ar.kind;
            size := if i.ar.size < 2 then i.ar.size else 2;
            arreadyNext := false;
            state := RBurst;
          } else {
            state := RIdle;
          }
        case RBurst =>
          if i.rready || !rvalid {
            rdEn, rvalidNext, ridNext, rlastNext := true, true, readId, readCount == 0;
            if readKind != FIXED {
              addr := (readAddr + NumberBytes(readSize)) % 256;
            }
            count := (readCount - 1) % 256;
            if readCount > 0 {
              state := RBurst;
            } else {
              arreadyNext := true;
              state := RIdle;
            }
          } else {
            state := RBurst;
          }
      }
      next := ReadRegs(state, id, addr, count, size, kind, arreadyNext, ridNext, rdata, rlastNext, rvalidNext);
    }

    /** The clocked strobed write, lane by lane. */
    method WriteLanes(word: WordIndex, b: WBeat)
      requires Valid()
      modifies mem
      ensures Stored() == old(Stored())[word := Merge(old(mem[word]), b)]
    {
      var lane := 0;
      while lane < 4
        invariant 0 <= lane <= 4
        invariant forall l :: 0 <= l < lane ==> mem[word][l] == Merge(old(mem[word]), b)[l]
        invariant forall l :: lane <= l < 4 ==> mem[word][l] == old(mem[word])[l]
        invariant forall k :: 0 <= k < 64 && k != word ==> mem[k] == old(mem[k])
      {
        if b.strb[lane] {
          mem[word] := mem[word][lane := b.data[lane]];
        }
        lane := lane + 1;
      }
      assert mem[word] == Merge(old(mem[word]), b);
    }

    /** The read block with its memory sample. */
    method SampleRead(i: Inputs) returns (next: ReadRegs)
      requires Valid()
      ensures next == ReadNext(Read(), Stored(), i)
    {
      var rdEn;
      next, rdEn := ReadBlock(i);
      next := next.(rdata := if rdEn then mem[readAddr / 4] else rdata);
    }

    /** The write block with its memory update. */
    method StrobedWrite(i: Inputs) returns (next: WriteRegs)
      requires Valid()
      modifies mem
      ensures next == WriteNext(Write(), i)
      ensures Stored() == MemoryStep(old(Stored()), Write(), i)
    {
      var wrEn;
      next, wrEn := WriteBlock(i);
      if wrEn {
        WriteLanes(writeAddr / 4, i.w);
      }
    }

    /** The clocked update of the write registers, then the synchronous reset when asserted. */
    method CommitWrite(w: WriteRegs, rstN: bool)
      modifies `writeState, `writeId, `writeAddr, `writeCount, `writeSize, `writeKind
      modifies `awready, `wready, `bid, `bvalid
      ensures Write() == if rstN then w else ResetWrite(w)
    {
      writeState, writeId, writeAddr, writeCount := w.state, w.id, w.addr, w.count;
      writeSize, writeKind := w.size, w.kind;
      awready, wready, bid, bvalid := w.awready, w.wready, w.bid, w.bvalid;
      if !rstN {
        writeState, awready, wready, bvalid := WIdle, false, false, false;
      }
    }

    /** The clocked update of the read registers, then the synchronous reset when asserted. */
    method CommitRead(r: ReadRegs, rstN: bool)
      modifies `readState, `readId, `readAddr, `readCount, `readSize, `readKind
      modifies `arready, `rid, `rdata, `rlast, `rvalid
      ensures Read() == if rstN then r else ResetRead(r)
    {
      readState, readId, readAddr, readCount := r.state, r.id, r.addr, r.count;
      readSize, readKind := r.size, r.kind;
      arready, rid, rdata, rlast, rvalid := r.arready, r.rid, r.rdata, r.rlast, r.rvalid;
      if !rstN {
        readState, arready, rvalid := RIdle, false, false;
      }
    }

    /** One rising clock edge. The read data is sampled before the memory changes. */
    method ClockEdge(i: Inputs)
      requires Valid()
      modifies this, mem
      ensures Valid()
      ensures Write() == WriteStep(old(Write()), i)
      ensures Read() == ReadStep(old(Read()), old(Stored()), i)
      ensures Stored() == MemoryStep(old(Stored()), old(Write()), i)
      ensures var w := WriteStep(old(Write()), i);
              awready == w.awready && wready == w.wready && bvalid == w.bvalid && bid == w.bid
      ensures var r := ReadStep(old(Read()), old(Stored()), i);
              arready == r.arready && rvalid == r.rvalid && rid == r.rid && rdata == r.rdata && rlast == r.rlast
    {
      hide WriteNext, ReadNext, MemoryStep;
      var r := SampleRead(i);
      var w := StrobedWrite(i);
      CommitWrite(w, i.rstN);
      CommitRead(r, i.rstN);
    }
  }
}
