/** What the write channels of the AXI4 RAM keep in every run: response order, beat counts and
    the contents of the memory. */
module AxiWriteChannel {
  import opened Basics
  import opened AxiTypes
  import opened AxiRam

  /** What the write channels handshook since the last reset, and the memory right after it. */
  datatype WriteTrace = WriteTrace(base: Memory, aws: seq<Burst>, ws: seq<WBeat>, bs: seq<Byte>)

  function ObserveWrite(t: WriteTrace, w: WriteRegs, m: Memory, i: Inputs): WriteTrace {
    if i.rstN then
      WriteTrace(t.base,
                 if AwFires(w, i) then t.aws + [i.aw] else t.aws,
                 if WFires(w, i) then t.ws + [i.w] else t.ws,
                 if BFires(w, i) then t.bs + [w.bid] else t.bs)
    else WriteTrace(MemoryStep(m, w, i), [], [], [])
  }

  function Ids(bursts: seq<Burst>): seq<Byte> {
    seq(|bursts|, k requires 0 <= k < |bursts| => bursts[k].id)
  }

  /** The response on offer, if any. */
  function HeldResponse(w: WriteRegs): seq<Byte> {
    if w.bvalid then [w.bid] else []
  }

  /** The burst under way or waiting to respond, if any. */
  function OpenBurst(w: WriteRegs): seq<Byte> {
    if w.state.WIdle? then [] else [w.id]
  }

  /** How many data beats the burst under way still takes. */
  function OwedBeats(w: WriteRegs): nat {
    if w.state.WBurst? then w.count + 1 else 0
  }

  /** The burst registers stand before beat `b.len - w.count` of burst `b`. */
  predicate Within(w: WriteRegs, b: Burst) {
    && w.id == b.id && w.kind == b.kind && w.size == ClippedSize(b.size)
    && w.count <= b.len && w.addr == SteppedAddress(b, b.len - w.count)
  }

  /** Ready and valid signals against the state. */
  predicate ControlInv(w: WriteRegs) {
    && (w.awready ==> w.state.WIdle?)
    && (w.wready <==> w.state.WBurst?)
    && (w.state.WResp? ==> w.bvalid)
  }

  /** The responses given, on offer and still to come are those of the accepted bursts, in order. */
  ghost predicate ResponseInv(w: WriteRegs, t: WriteTrace) {
    Ids(t.aws) == t.bs + HeldResponse(w) + OpenBurst(w)
  }

  /** The burst registers say which beat comes next. */
  ghost predicate PositionInv(w: WriteRegs, t: WriteTrace) {
    && |t.ws| + OwedBeats(w) == |Beats(t.aws)|
    && (w.state.WBurst? ==> t.aws != [] && Within(w, t.aws[|t.aws| - 1]))
  }

  /** The memory is the plain memory to which every accepted beat was applied. */
  ghost predicate ContentsInv(m: Memory, t: WriteTrace) {
    |t.ws| <= |Beats(t.aws)| && m == Replay(t.base, Beats(t.aws), t.ws)
  }

  ghost predicate WriteInv(w: WriteRegs, m: Memory, t: WriteTrace) {
    ControlInv(w) && ResponseInv(w, t) && PositionInv(w, t) && ContentsInv(m, t)
  }

  /** The state after power-on or after a reset edge, with an empty trace. */
  ghost predicate WriteFresh(w: WriteRegs, m: Memory, t: WriteTrace) {
    w == ResetWrite(w) && t == WriteTrace(m, [], [], [])
  }

  lemma FreshWriteInv(w: WriteRegs, m: Memory, t: WriteTrace)
    requires WriteFresh(w, m, t)
    ensures WriteInv(w, m, t)
  {
  }

  lemma ResponsesKept(w: WriteRegs, m: Memory, t: WriteTrace, i: Inputs)
    requires ControlInv(w) && ResponseInv(w, t) && i.rstN
    ensures ControlInv(WriteStep(w, i)) && ResponseInv(WriteStep(w, i), ObserveWrite(t, w, m, i))
  {
    if AwFires(w, i) {
      assert Ids(t.aws + [i.aw]) == Ids(t.aws) + [i.aw.id];
    }
  }

  /** The address register steps to the next beat of its burst. */
  lemma AdvanceIsNext(b: Burst, n: nat)
    ensures Advance(SteppedAddress(b, n), ClippedSize(b.size), b.kind) == SteppedAddress(b, n + 1)
  {
    SteppedAddressNext(b, n);
  }

  lemma WithinKept(w: WriteRegs, b: Burst, i: Inputs)
    requires ControlInv(w) && Within(w, b) && WFires(w, i) && w.count > 0
    ensures Within(WriteNext(w, i), b)
  {
    hide Advance, SteppedAddress, ClippedSize;
    AdvanceIsNext(b, b.len - w.count);
    assert b.len - (w.count - 1) == b.len - w.count + 1;
  }

  lemma BurstBegins(w: WriteRegs, i: Inputs)
    requires ControlInv(w) && AwFires(w, i) && i.rstN
    ensures var e := WriteStep(w, i); e.state.WBurst? && e.count == i.aw.len && Within(e, i.aw)
  {
    SteppedAddressFirst(i.aw);
  }

  lemma PositionKept(w: WriteRegs, m: Memory, t: WriteTrace, i: Inputs)
    requires ControlInv(w) && PositionInv(w, t) && i.rstN
    ensures PositionInv(WriteStep(w, i), ObserveWrite(t, w, m, i))
  {
    hide Beats, Advance, SteppedAddress, ClippedSize, MemoryStep;
    if AwFires(w, i) {
      BeatsAppend(t.aws, i.aw);
      BurstBegins(w, i);
    } else if WFires(w, i) && w.count > 0 {
      WithinKept(w, t.aws[|t.aws| - 1], i);
    }
  }

  /** The next data beat belongs to the beat position the address register points at. */
  lemma NextBeatWord(w: WriteRegs, t: WriteTrace)
    requires PositionInv(w, t) && w.state.WBurst?
    ensures |t.ws| < |Beats(t.aws)|
    ensures Beats(t.aws)[|t.ws|].word == w.addr / 4
  {
    var last := |t.aws| - 1;
    var b := t.aws[last];
    BeatsAppend(t.aws[..last], b);
    assert t.aws[..last] + [b] == t.aws;
    assert |t.ws| == |Beats(t.aws[..last])| + (b.len - w.count);
    SteppedAddressHitsStandardWord(b, b.len - w.count);
  }

  lemma ContentsKept(w: WriteRegs, m: Memory, t: WriteTrace, i: Inputs)
    requires ControlInv(w) && PositionInv(w, t) && ContentsInv(m, t) && i.rstN
    ensures ContentsInv(MemoryStep(m, w, i), ObserveWrite(t, w, m, i))
  {
    if AwFires(w, i) {
      BeatsAppend(t.aws, i.aw);
      ReplayPrefix(t.base, Beats(t.aws), BurstBeats(i.aw), t.ws);
    } else if WFires(w, i) {
      NextBeatWord(w, t);
      assert (t.ws + [i.w])[..|t.ws|] == t.ws;
    }
  }

  /** One edge keeps the invariant, whatever the inputs; a reset edge starts it afresh. */
  lemma WriteStepKeeps(w: WriteRegs, m: Memory, t: WriteTrace, i: Inputs)
    requires WriteInv(w, m, t)
    ensures WriteInv(WriteStep(w, i), MemoryStep(m, w, i), ObserveWrite(t, w, m, i))
  {
    if i.rstN {
      ResponsesKept(w, m, t, i);
      PositionKept(w, m, t, i);
      ContentsKept(w, m, t, i);
    } else {
      FreshWriteInv(WriteStep(w, i), MemoryStep(m, w, i), ObserveWrite(t, w, m, i));
    }
  }
}
