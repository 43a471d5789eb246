/** The slots DMA engine: the circular doorbell scan over the register map, and the scheduler
    thread interleaved with host writes. */
module SlotsEngine {
  import Arith
  import opened Bits

  const MAX_SLOTS: nat := 64

  datatype DoorbellType = Full | Done
  datatype AddressType = Input | Output | Control

  /** Register values by register number. */
  type Registers = map<nat, U64>

  function TypeCode(t: DoorbellType): nat { if t.Full? then 0 else 1 }

  function AddressCode(t: AddressType): nat { match t case Input => 0 case Output => 1 case Control => 2 }

  /** `0x30000 | slot << 9 | type` */
  function DoorbellRegnum(slot: nat, t: DoorbellType): nat {
    Or(Or(0x30000, slot * 512), TypeCode(t))
  }

  /** `0x20200 | slot << 2 | type` */
  function AddressRegnum(slot: nat, t: AddressType): nat {
    Or(Or(0x20200, slot * 4), AddressCode(t))
  }

  lemma DoorbellRegnumIsSum(slot: nat, t: DoorbellType)
    requires slot < 64
    ensures DoorbellRegnum(slot, t) == 0x30000 + slot * 512 + (if t.Full? then 0 else 1)
  {
    hide And, Or, IsPow2;
    assert Pow2(9) == 512 && Pow2(15) == 32768 by { Pow2Add(8, 7); assert Pow2(8) == 256 && Pow2(7) == 128; }
    OrIsSum(0x30000, slot * 512, 15);
    OrIsSum(0x30000 + slot * 512, TypeCode(t), 9);
  }

  lemma AddressRegnumIsSum(slot: nat, t: AddressType)
    requires slot < 64
    ensures AddressRegnum(slot, t) == 0x20200 + slot * 4 + match t case Input => 0 case Output => 1 case Control => 2
  {
    hide And, Or, IsPow2;
    assert Pow2(2) == 4 && Pow2(8) == 256;
    assert Pow2(9) == 512;
    OrIsSum(0x20200, slot * 4, 9);
    OrIsSum(0x20200 + slot * 4, AddressCode(t), 2);
  }

  /** Doorbells never share a register, with each other or with an address register. */
  lemma RegnumsDisjoint(s: nat, t: DoorbellType, s': nat, t': DoorbellType, a: AddressType)
    requires s < 64 && s' < 64
    ensures DoorbellRegnum(s, t) == DoorbellRegnum(s', t') ==> s == s' && t == t'
    ensures DoorbellRegnum(s, t) != AddressRegnum(s', a)
  {
    DoorbellRegnumIsSum(s, t);
    DoorbellRegnumIsSum(s', t');
    AddressRegnumIsSum(s', a);
  }

  // ----- The circular scan

  function AddWrap(a: nat, b: nat, max: nat): nat
    requires max > 0
  {
    (a + b) % max
  }

  lemma AddWrapOne(i: nat, n: nat)
    requires i < n
    ensures AddWrap(i, 1, n) == if i + 1 < n then i + 1 else 0
  {
    if i + 1 < n {
      Arith.DivModUnique(i + 1, n, 0, i + 1);
    } else {
      Arith.DivModUnique(i + 1, n, 1, 0);
    }
  }

  /** The slot `d` places after the one following `last`, around the ring of `n` slots. */
  function SlotAfter(last: nat, d: nat, n: nat): nat
    requires last < n && d < n
  {
    if last + 1 + d < n then last + 1 + d else last + 1 + d - n
  }

  /** How many slots the scan passes before it reaches `slot`. */
  function Distance(last: nat, slot: nat, n: nat): nat
    requires last < n && slot < n
  {
    if slot > last then slot - last - 1 else slot + n - last - 1
  }

  /** Going that many places on from the slot after `last`, modulo the number of slots, leads to
      `slot`; the one after `last` comes first and `last` itself at the end. */
  lemma DistanceIsCircular(last: nat, slot: nat, n: nat)
    requires last < n && slot < n
    ensures 0 <= Distance(last, slot, n) < n && (last + 1 + Distance(last, slot, n)) % n == slot
    ensures Distance(last, last, n) == n - 1 && Distance(last, (last + 1) % n, n) == 0
  {
    AddWrapOne(last, n);
    var d := Distance(last, slot, n);
    if slot > last {
      Arith.DivModUnique(last + 1 + d, n, 0, slot);
    } else {
      Arith.DivModUnique(last + 1 + d, n, 1, slot);
    }
  }

  /** `slot` is the first non-zero doorbell after `last`, going round and ending with `last`. */
  ghost predicate FirstFull(full: seq<U64>, last: nat, slot: nat) {
    && last < |full| && slot < |full| && full[slot] != 0
    && (forall s :: 0 <= s < |full| && full[s] != 0 ==> Distance(last, slot, |full|) <= Distance(last, s, |full|))
  }

  ghost predicate NoneFull(full: seq<U64>) {
    forall s :: 0 <= s < |full| ==> full[s] == 0
  }

  class Engine {
    const slotCount: nat
    var regs: Registers
    /** The doorbell event has been notified and has not fired yet. */
    var notified: bool

    ghost predicate Valid()
      reads this
    {
      && 0 < slotCount <= MAX_SLOTS
      && (forall slot, t :: 0 <= slot < slotCount ==> DoorbellRegnum(slot, t) in regs)
    }

    /** The full doorbells, in slot order. */
    ghost function Full(): seq<U64>
      requires Valid()
      reads this
    {
      seq<U64>(slotCount, slot requires 0 <= slot < slotCount && Valid() reads this =>
        regs[DoorbellRegnum(slot, DoorbellType.Full)])
    }

    /** Finds the next full doorbell after `num`; on success the slot and its value replace the
        arguments, otherwise they are returned unchanged. */
    method FindNextFullDoorbell(num: nat, value: U64) returns (found: bool, num': nat, value': U64)
      requires Valid() && num < slotCount
      ensures if found then FirstFull(Full(), num, num') && value' == Full()[num']
              else NoneFull(Full()) && num' == num && value' == value
    {
      hide DoorbellRegnum, AddWrap;
      var i := AddWrap(num, 1, slotCount);
      AddWrapOne(num, slotCount);
      var done := false;
      ghost var k := 0;
      while !done
        invariant !done ==> k < slotCount && i == SlotAfter(num, k, slotCount)
        invariant done ==> k == slotCount
        invariant forall s :: 0 <= s < slotCount && Distance(num, s, slotCount) < k ==> Full()[s] == 0
        decreases slotCount - k, !done
      {
        done := i == num;
        var dbv := regs[DoorbellRegnum(i, DoorbellType.Full)];
        if dbv != 0 {
          return true, i, dbv;
        }
        AddWrapOne(i, slotCount);
        i := AddWrap(i, 1, slotCount);
        k := k + 1;
      }
      forall s | 0 <= s < slotCount ensures Full()[s] == 0 {
        assert Distance(num, s, slotCount) < k;
      }
      return false, num, value;
    }

    /** The host's doorbell write; a non-zero value wakes the DMA thread. */
    method WriteDoorbellRegister(slot: nat, t: DoorbellType, value: U64) returns (accepted: bool)
      requires Valid()
      modifies this
      ensures Valid() && accepted == (slot < slotCount)
      ensures Full() == if accepted && t.Full? then old(Full())[slot := value] else old(Full())
      ensures regs == if accepted then old(regs)[0x30000 + slot * 512 + (if t.Full? then 0 else 1) := value]
                      else old(regs)
      ensures notified == (old(notified) || (accepted && value != 0))
    {
      hide DoorbellRegnum, AddressRegnum;
      if slot >= slotCount {
        return false;
      }
      forall s | 0 <= s < slotCount
        ensures DoorbellRegnum(s, DoorbellType.Full) == DoorbellRegnum(slot, t) ==> s == slot && t.Full?
      {
        RegnumsDisjoint(s, DoorbellType.Full, slot, t, Input);
      }
      DoorbellRegnumIsSum(slot, t);
      regs := regs[DoorbellRegnum(slot, t) := value];
      if value != 0 {
        notified := true;
      }
      return true;
    }

    /** The engine clears the doorbell of the slot in service. */
    method ClearFullDoorbell(slot: nat)
      requires Valid() && slot < slotCount
      modifies `regs
      ensures Valid() && Full() == old(Full())[slot := 0]
      ensures regs == old(regs)[0x30000 + slot * 512 := 0]
    {
      hide DoorbellRegnum, AddressRegnum;
      forall s | 0 <= s < slotCount
        ensures DoorbellRegnum(s, DoorbellType.Full) == DoorbellRegnum(slot, DoorbellType.Full) ==> s == slot
      {
        RegnumsDisjoint(s, DoorbellType.Full, slot, DoorbellType.Full, Input);
      }
      DoorbellRegnumIsSum(slot, DoorbellType.Full);
      regs := regs[DoorbellRegnum(slot, DoorbellType.Full) := 0];
    }
  }
}
