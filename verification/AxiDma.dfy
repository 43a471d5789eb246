/** The AXI DMA registers shared by both channels, and the driver's writes to them. */
module AxiDma {
  import opened Basics
  import opened Bits

  /** One transfer on the stream: a piece of a packet, marked when it ends the packet. */
  datatype Piece = Piece(data: seq<Byte>, eop: bool)

  /** The registers. Of the status and control registers only the bits the channels look at
      are kept: IDLE and IOC_IRQ, and the interrupt enable for the latter. */
  datatype Regs = Regs(iocIrqEn: bool, idle: bool, iocIrq: bool, addr: U32, addrMsb: U32, length: U32)

  /** The interrupt line: completion reported and enabled. */
  predicate Irq(r: Regs) { r.iocIrq && r.iocIrqEn }

  function Address(r: Regs): U64 {
    Combine(r.addrMsb, r.addr)
  }

  /** What storing a 64-bit address into the register pair leaves. */
  function WithAddress(r: Regs, a: U64): Regs {
    r.(addr := Low32(a), addrMsb := High32(a))
  }

  lemma AddressRoundTrip(r: Regs, a: U64)
    ensures Address(WithAddress(r, a)) == a
  {
    CombineHalves(a, 0, 0);
  }

  function Complete(r: Regs): Regs {
    r.(idle := true, iocIrq := true)
  }

  /** A driver's write to one of the registers with a meaning here. */
  datatype RegisterWrite =
    | WriteControl(iocIrqEn: bool)
    | WriteStatus(clearIocIrq: bool)
    | WriteAddr(value: U32)
    | WriteAddrMsb(value: U32)
    | WriteLength(value: U32)

  /** IOC_IRQ is cleared by writing a one to it; IDLE only by writing LENGTH. */
  function Written(r: Regs, w: RegisterWrite): Regs {
    match w
    case WriteControl(en) => r.(iocIrqEn := en)
    case WriteStatus(clear) => r.(iocIrq := r.iocIrq && !clear)
    case WriteAddr(v) => r.(addr := v)
    case WriteAddrMsb(v) => r.(addrMsb := v)
    case WriteLength(v) => r.(length := v, idle := false)
  }

  /** The driver sets a channel up: interrupt enable, both halves of the address, then the length. */
  function SetUp(r: Regs, en: bool, lo: U32, hi: U32, n: U32): Regs {
    Written(Written(Written(Written(r, WriteControl(en)), WriteAddr(lo)), WriteAddrMsb(hi)), WriteLength(n))
  }

  /** A channel set up is busy with the length and the 64-bit address written; the interrupt line
      follows the enable bit once completion is reported, and falls when the driver writes a one to
      the completion bit, but not when it writes a zero. */
  lemma SetUpChannel(r: Regs, en: bool, lo: U32, hi: U32, n: U32)
    ensures var s := SetUp(r, en, lo, hi, n);
            && !s.idle && s.length == n && Address(s) == 0x1_0000_0000 * hi + lo
            && s.iocIrqEn == en && s.iocIrq == r.iocIrq
            && (Irq(Complete(s)) <==> en) && Complete(s).idle
            && !Irq(Written(Complete(s), WriteStatus(true)))
            && (Irq(Written(Complete(s), WriteStatus(false))) <==> en)
  {
  }

  class Channel {
    var iocIrqEn: bool
    var idle: bool
    var iocIrq: bool
    var addr: U32
    var addrMsb: U32
    var length: U32
    /** Bytes stored since the last LENGTH write; the source gives it no initial value. */
    var lengthCopied: U32

    constructor ()
      ensures Registers() == Regs(false, false, false, 0, 0, 0)
    {
      iocIrqEn, idle, iocIrq, addr, addrMsb, length := false, false, false, 0, 0, 0;
    }

    function Registers(): Regs
      reads this
    {
      Regs(iocIrqEn, idle, iocIrq, addr, addrMsb, length)
    }

    method RegisterAccess(w: RegisterWrite)
      modifies this
      ensures Registers() == Written(old(Registers()), w)
      ensures lengthCopied == if w.WriteLength? then 0 else old(lengthCopied)
      ensures match w
              case WriteControl(en) => iocIrqEn == en
              case WriteStatus(clear) => iocIrq == (old(iocIrq) && !clear)
              case WriteAddr(v) => addr == v
              case WriteAddrMsb(v) => addrMsb == v
              case WriteLength(v) => length == v && !idle
    {
      match w {
        case WriteControl(en) => iocIrqEn := en;
        case WriteStatus(clear) =>
          if clear {
            iocIrq := false;
          }
        case WriteAddr(v) => addr := v;
        case WriteAddrMsb(v) => addrMsb := v;
        case WriteLength(v) => lengthCopied, length, idle := 0, v, false;
      }
    }
  }
}
