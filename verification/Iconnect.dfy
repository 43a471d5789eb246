/** The interconnect's address map: windows are entered in the first free entry, addresses are
    decoded by the first window that matches, and offsets are turned back into addresses. */
module Iconnect {
  import opened Basics
  import opened Bits

  datatype AddrMode = Relative | Absolute

  /** A map entry; a size of zero marks it free. The size is the window's last offset: the
      decoder takes it as inclusive. */
  datatype Entry = Entry(addr: U64, size: U64, mode: AddrMode, target: int)

  datatype Decoded = Decoded(target: int, offset: U64)

  predicate Matches(e: Entry, addr: U64) {
    e.size != 0 && addr >= e.addr && addr <= Add64(e.addr, e.size)
  }

  /** The first matching entry. */
  function FirstMatch(table: seq<Entry>, addr: U64): Option<nat> {
    if table == [] then None
    else if Matches(table[0], addr) then Some(0)
    else
      match FirstMatch(table[1..], addr)
      case None => None
      case Some(i) => Some(i + 1)
  }

  lemma {:induction false} FirstMatchIs(table: seq<Entry>, addr: U64)
    ensures FirstMatch(table, addr).None? <==> forall k :: 0 <= k < |table| ==> !Matches(table[k], addr)
    ensures FirstMatch(table, addr).Some? ==>
              var i := FirstMatch(table, addr).value;
              && i < |table| && Matches(table[i], addr)
              && (forall k :: 0 <= k < i ==> !Matches(table[k], addr))
    decreases |table|
  {
    if table != [] && !Matches(table[0], addr) {
      FirstMatchIs(table[1..], addr);
      assert forall k :: 1 <= k < |table| ==> table[k] == table[1..][k - 1];
    }
  }

  function EntryOffset(e: Entry, addr: U64): U64 {
    if e.mode.Relative? then Sub64(addr, e.addr) else addr
  }

  function Decode(table: seq<Entry>, addr: U64): Option<Decoded> {
    FirstMatchIs(table, addr);
    match FirstMatch(table, addr)
    case None => None
    case Some(i) => Some(Decoded(table[i].target, EntryOffset(table[i], addr)))
  }

  /** What `unmap_offset` makes of an offset; `None` where it reports a fatal error. The target
      number is unsigned there, so a negative one is too large. */
  function Unmap(table: seq<Entry>, targets: nat, target: int, offset: U64): Option<U64>
    requires targets <= |table|
  {
    if target < 0 || target >= targets then None
    else
      var e := table[target];
      if e.mode.Absolute? then Some(offset)
      else if offset >= e.size then None
      else Some(Add64(e.addr, offset))
  }

  /** All used entries come before all free ones. */
  ghost predicate Packed(table: seq<Entry>) {
    forall i, k :: 0 <= i < k < |table| && table[i].size == 0 ==> table[k].size == 0
  }

  /** The first free entry, or the number of entries when there is none. */
  function FirstFree(table: seq<Entry>): (i: nat)
    ensures i <= |table|
    ensures i < |table| ==> table[i].size == 0
    ensures forall k :: 0 <= k < i ==> table[k].size != 0
  {
    if table == [] || table[0].size == 0 then 0 else 1 + FirstFree(table[1..])
  }

  /** The map after entering a window; the decoder target is the entry's own number unless one
      is given. */
  function Entered(table: seq<Entry>, addr: U64, size: U64, mode: AddrMode, idx: int): seq<Entry>
    requires FirstFree(table) < |table|
  {
    var i := FirstFree(table);
    table[i := Entry(addr, size, mode, if idx == -1 then i else idx)]
  }

  class Interconnect {
    const targets: nat
    const entries: array<Entry>

    ghost predicate Valid() {
      entries.Length == 4 * targets
    }

    /** The source clears the first `targets` sizes only; the rest are assumed to be zero. */
    constructor (n: nat)
      ensures Valid() && targets == n && fresh(entries) && entries.Length == 4 * n
      ensures forall k :: 0 <= k < 4 * n ==> entries[k].size == 0
    {
      targets := n;
      entries := new Entry[4 * n](_ => Entry(0, 0, Relative, 0));
    }

    /** Enters a window; `None` stands for the abort on a full map. */
    method Memmap(addr: U64, size: U64, mode: AddrMode, idx: int) returns (entry: Option<nat>)
      requires Valid()
      modifies entries
      ensures entry == if FirstFree(old(entries[..])) < 4 * targets then Some(FirstFree(old(entries[..]))) else None
      ensures entries[..] ==
              if entry.Some? then Entered(old(entries[..]), addr, size, mode, idx) else old(entries[..])
    {
      var i := 0;
      while i < 4 * targets
        invariant 0 <= i <= 4 * targets
        invariant entries[..] == old(entries[..])
        invariant forall k :: 0 <= k < i ==> entries[k].size != 0
      {
        if entries[i].size == 0 {
          assert FirstFree(entries[..]) == i;
          entries[i] := Entry(addr, size, mode, i);
          if idx != -1 {
            entries[i] := entries[i].(target := idx);
          }
          return Some(i);
        }
        i := i + 1;
      }
      return None;
    }

    /** Decodes an address; without a match the result is target 0 and the offset as it was. */
    method MapAddress(addr: U64, offset: U64) returns (target: int, offset': U64)
      requires Valid()
      ensures match Decode(entries[..], addr)
              case Some(d) => target == d.target && offset' == d.offset
              case None => target == 0 && offset' == offset
    {
      FirstMatchIs(entries[..], addr);
      var i := 0;
      while i < 4 * targets
        invariant 0 <= i <= 4 * targets
        invariant forall k :: 0 <= k < i ==> !Matches(entries[k], addr)
      {
        var e := entries[i];
        if e.size != 0 && addr >= e.addr && addr <= Add64(e.addr, e.size) {
          assert FirstMatch(entries[..], addr) == Some(i);
          if e.mode.Relative? {
            return e.target, Sub64(addr, e.addr);
          } else {
            return e.target, addr;
          }
        }
        i := i + 1;
      }
      return 0, offset;
    }

    method UnmapOffset(target: nat, offset: U64) returns (addr: Option<U64>)
      requires Valid()
      ensures addr == Unmap(entries[..], targets, target, offset)
    {
      if target >= targets {
        return None;
      }
      if entries[target].mode.Relative? {
        if offset >= entries[target].size {
          return None;
        }
        return Some(Add64(entries[target].addr, offset));
      }
      return Some(offset);
    }

    /** Forwards a transaction: `sent` is the address the target sees, `left` the address the
        transaction carries afterwards, the caller's own only without a target offset. */
    method BTransport(address: U64, targetOffset: U64, stale: U64)
      returns (target: int, sent: U64, left: U64)
      requires Valid()
      ensures left == Add64(address, targetOffset) && (left == address <==> targetOffset == 0)
      ensures match Decode(entries[..], left)
              case Some(d) => target == d.target && sent == d.offset
              case None => target == 0 && sent == stale
    {
      var addr := Add64(address, targetOffset);
      target, sent := MapAddress(addr, stale);
      left := addr;
    }
  }

  // ----- Windows entered later

  /** Entering a non-empty window keeps the map packed, never changes what an address that was
      decoded before decodes to, and adds exactly its own addresses to the others. */
  lemma EnteringKeepsDecode(table: seq<Entry>, addr: U64, size: U64, mode: AddrMode, idx: int, x: U64)
    requires Packed(table) && FirstFree(table) < |table| && size > 0
    ensures Packed(Entered(table, addr, size, mode, idx))
    ensures var next := Entered(table, addr, size, mode, idx);
            var window := next[FirstFree(table)];
            Decode(next, x) ==
            if Decode(table, x).Some? then Decode(table, x)
            else if Matches(window, x) then Some(Decoded(window.target, EntryOffset(window, x)))
            else None
  {
    var next := Entered(table, addr, size, mode, idx);
    FirstMatchIs(table, x);
    FirstMatchIs(next, x);
    var free := FirstFree(table);
    if FirstMatch(table, x).Some? {
      var i := FirstMatch(table, x).value;
      MatchedIsUsed(table, i, x);
      forall k | 0 <= k <= i ensures next[k] == table[k] {
        assert k != FirstFree(table);
      }
      FirstMatchUnique(next, x, i);
    } else if Matches(next[free], x) {
      FirstMatchUnique(next, x, free);
    } else {
      assert forall k :: 0 <= k < |next| ==> k == free || next[k] == table[k];
    }
  }

  /** A window entered in a map with room decodes its addresses, from `addr` to the inclusive end
      `addr + size`, where nothing did before: to the entry's number or the target given, and to
      the distance from `addr` or the address itself. No other address is decoded by it. */
  lemma WindowDecodes(table: seq<Entry>, addr: U64, size: U64, mode: AddrMode, idx: int, x: U64)
    requires Packed(table) && FirstFree(table) < |table| && size > 0 && addr + size < W64
    requires Decode(table, x).None?
    ensures Decode(Entered(table, addr, size, mode, idx), x) ==
            if addr <= x <= addr + size then
              Some(Decoded(if idx == -1 then FirstFree(table) else idx, if mode.Relative? then x - addr else x))
            else None
  {
    EnteringKeepsDecode(table, addr, size, mode, idx, x);
    var window := Entry(addr, size, mode, if idx == -1 then FirstFree(table) else idx);
    assert Entered(table, addr, size, mode, idx)[FirstFree(table)] == window;
    hide Decode, Entered, Packed, FirstFree;
    WindowMatches(window, x);
  }

  lemma WindowMatches(e: Entry, x: U64)
    requires e.size > 0 && e.addr + e.size < W64
    ensures Matches(e, x) <==> e.addr <= x <= e.addr + e.size
    ensures Matches(e, x) ==> EntryOffset(e, x) == if e.mode.Relative? then x - e.addr else x
  {
    AddPlain(e.addr, e.size);
  }

  /** In a packed map only entries before the first free one match anything. */
  lemma MatchedIsUsed(table: seq<Entry>, i: nat, x: U64)
    requires Packed(table) && i < |table| && Matches(table[i], x)
    ensures i < FirstFree(table)
  {
    var free := FirstFree(table);
    assert free < |table| ==> table[free].size == 0;
  }

  lemma FirstMatchUnique(table: seq<Entry>, x: U64, i: nat)
    requires i < |table| && Matches(table[i], x) && forall k :: 0 <= k < i ==> !Matches(table[k], x)
    ensures FirstMatch(table, x) == Some(i)
  {
    FirstMatchIs(table, x);
  }

  datatype Window = Window(addr: U64, size: U64, mode: AddrMode, idx: int)

  /** Windows entered one after the other, as far as there is room. */
  function EnteredAll(table: seq<Entry>, windows: seq<Window>): seq<Entry>
    decreases |windows|
  {
    if windows == [] || FirstFree(table) == |table| then table
    else
      var w := windows[0];
      EnteredAll(Entered(table, w.addr, w.size, w.mode, w.idx), windows[1..])
  }

  lemma {:induction false} LaterWindowsKeepDecode(table: seq<Entry>, windows: seq<Window>, x: U64)
    requires Packed(table) && Decode(table, x).Some?
    requires forall k :: 0 <= k < |windows| ==> windows[k].size > 0
    ensures Decode(EnteredAll(table, windows), x) == Decode(table, x)
    decreases |windows|
  {
    if windows != [] && FirstFree(table) < |table| {
      var w := windows[0];
      EnteringKeepsDecode(table, w.addr, w.size, w.mode, w.idx, x);
      LaterWindowsKeepDecode(Entered(table, w.addr, w.size, w.mode, w.idx), windows[1..], x);
    }
  }

  // ----- Offsets back to addresses

  /** What the decoder takes off an address and the unmapping adds. */
  function Base(e: Entry): U64 {
    if e.mode.Relative? then e.addr else 0
  }

  /** Whichever window decodes an address and whatever target it names, unmapping the offset for
      that target gives the address back exactly when the target's own entry has the same base
      and, if relative, a size above the offset. For a relative window that kept its own number
      this leaves out one address: the inclusive last byte decodes but does not unmap. */
  lemma UnmapInvertsDecodeIff(table: seq<Entry>, targets: nat, addr: U64)
    requires targets <= |table| && FirstMatch(table, addr).Some?
    ensures FirstMatch(table, addr).value < |table|
    ensures var i := FirstMatch(table, addr).value;
            var e, d := table[i], Decode(table, addr).value;
            && d.target == e.target && d.offset == addr - Base(e)
            && (Unmap(table, targets, d.target, d.offset) == Some(addr) <==>
                && 0 <= d.target < targets && Base(table[d.target]) == Base(e)
                && (table[d.target].mode.Relative? ==> d.offset < table[d.target].size))
            && (e.mode.Relative? && d.target == i < targets ==>
                && (Unmap(table, targets, d.target, d.offset) == Some(addr) <==> addr != e.addr + e.size)
                && (Unmap(table, targets, d.target, d.offset).Some? <==> d.offset < e.size))
  {
    FirstMatchIs(table, addr);
    var i := FirstMatch(table, addr).value;
    MatchedOffset(table[i], addr);
    if 0 <= table[i].target < targets {
      OffsetUnmapsIff(table[i], table[table[i].target], addr);
    }
  }

  /** A window that matches an address does not wrap, whatever its size. */
  lemma MatchedOffset(e: Entry, addr: U64)
    requires Matches(e, addr)
    ensures e.addr + e.size < W64 && Base(e) <= addr && EntryOffset(e, addr) == addr - Base(e)
    ensures e.mode.Relative? ==> EntryOffset(e, addr) <= e.size
  {
  }

  lemma OffsetUnmapsIff(e: Entry, to: Entry, addr: U64)
    requires Base(e) <= addr
    ensures (if to.mode.Absolute? then addr - Base(e) else Add64(to.addr, addr - Base(e))) == addr <==>
            Base(to) == Base(e)
  {
  }

  /** Absolute windows hand the address through both ways. */
  lemma AbsoluteUnmaps(table: seq<Entry>, targets: nat, addr: U64)
    requires targets <= |table| && FirstMatch(table, addr).Some?
    requires FirstMatch(table, addr).value < |table| && table[FirstMatch(table, addr).value].mode.Absolute?
    requires var t := table[FirstMatch(table, addr).value].target;
             0 <= t < targets && table[t].mode.Absolute?
    ensures var t := table[FirstMatch(table, addr).value].target;
            Decode(table, addr) == Some(Decoded(t, addr)) && Unmap(table, targets, t, addr) == Some(addr)
  {
    FirstMatchIs(table, addr);
  }
}
