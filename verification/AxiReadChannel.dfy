/** What the read channels of the AXI4 RAM keep in every run: which beats come back, in which
    order, and which value of the memory each one carries. */
module AxiReadChannel {
  import opened AxiTypes
  import opened AxiRam
  import opened AxiWriteChannel

  /** What the read channels handshook since the last reset. For every beat ever offered,
      `seen` records how many write beats had been accepted before the edge that loaded it. */
  datatype ReadTrace = ReadTrace(ars: seq<Burst>, rs: seq<RBeat>, seen: seq<nat>)

  /** A new beat is on offer after the edge: valid, and not an old beat still waiting. */
  predicate OffersNew(r: ReadRegs, next: ReadRegs, i: Inputs) {
    next.rvalid && (!r.rvalid || i.rready)
  }

  function HeldBeat(r: ReadRegs): seq<RBeat> {
    if r.rvalid then [RBeat(r.rid, r.rdata, r.rlast)] else []
  }

  function ObserveRead(t: ReadTrace, r: ReadRegs, next: ReadRegs, written: nat, i: Inputs): ReadTrace {
    if i.rstN then
      ReadTrace(if ArFires(r, i) then t.ars + [i.ar] else t.ars,
                if RFires(r, i) then t.rs + HeldBeat(r) else t.rs,
                if OffersNew(r, next, i) then t.seen + [written] else t.seen)
    else ReadTrace([], [], [])
  }

  /** The reference memory after the first `n` accepted write beats. */
  function PlainMemory(wt: WriteTrace, n: nat): Memory
    requires n <= |wt.ws| <= |Beats(wt.aws)|
  {
    Replay(wt.base, Beats(wt.aws), wt.ws[..n])
  }

  /** The beat the `k`-th load owes the master: identity and position from the accepted read
      bursts, data from the reference memory at the time of the load. */
  function ExpectedBeat(wt: WriteTrace, beat: Beat, seen: nat): RBeat
    requires seen <= |wt.ws| <= |Beats(wt.aws)|
  {
    RBeat(beat.id, PlainMemory(wt, seen)[beat.word], beat.last)
  }

  function OwedReads(r: ReadRegs): nat {
    if r.state.RBurst? then r.count + 1 else 0
  }

  predicate WithinRead(r: ReadRegs, b: Burst) {
    && r.id == b.id && r.kind == b.kind && r.size == ClippedSize(b.size)
    && r.count <= b.len && r.addr == SteppedAddress(b, b.len - r.count)
  }

  ghost predicate ReadPositionInv(r: ReadRegs, t: ReadTrace) {
    && (r.arready ==> r.state.RIdle?)
    && |t.seen| == |t.rs + HeldBeat(r)|
    && |t.seen| + OwedReads(r) == |Beats(t.ars)|
    && (r.state.RBurst? ==> t.ars != [] && WithinRead(r, t.ars[|t.ars| - 1]))
  }

  /** The `k`-th beat handshaken or on offer is the expected one for `seen` write beats. */
  ghost predicate BeatIsExpected(r: ReadRegs, t: ReadTrace, wt: WriteTrace, k: nat, seen: nat) {
    && seen <= |wt.ws| <= |Beats(wt.aws)| && k < |Beats(t.ars)| && k < |t.rs + HeldBeat(r)|
    && (t.rs + HeldBeat(r))[k] == ExpectedBeat(wt, Beats(t.ars)[k], seen)
  }

  ghost predicate ReadDataInv(r: ReadRegs, t: ReadTrace, wt: WriteTrace) {
    && |wt.ws| <= |Beats(wt.aws)|
    && |t.seen| == |t.rs + HeldBeat(r)| <= |Beats(t.ars)|
    && (forall k :: 0 <= k < |t.seen| ==> BeatIsExpected(r, t, wt, k, t.seen[k]))
  }

  ghost predicate ReadInv(r: ReadRegs, t: ReadTrace, wt: WriteTrace) {
    ReadPositionInv(r, t) && ReadDataInv(r, t, wt)
  }

  ghost predicate ReadFresh(r: ReadRegs, t: ReadTrace) {
    r == ResetRead(r) && t == ReadTrace([], [], [])
  }

  lemma FreshReadInv(r: ReadRegs, t: ReadTrace, wt: WriteTrace)
    requires ReadFresh(r, t) && |wt.ws| <= |Beats(wt.aws)|
    ensures ReadInv(r, t, wt)
  {
  }

  // ----- One edge

  /** A beat is offered exactly when one is loaded. */
  lemma SeenGrows(r: ReadRegs, m: Memory, t: ReadTrace, written: nat, i: Inputs)
    requires i.rstN
    ensures ObserveRead(t, r, ReadStep(r, m, i), written, i).seen == t.seen + if Loads(r, i) then [written] else []
  {
  }

  lemma WithinReadKept(r: ReadRegs, m: Memory, b: Burst, i: Inputs)
    requires WithinRead(r, b) && Loads(r, i) && r.count > 0
    ensures WithinRead(ReadNext(r, m, i), b)
  {
    hide Advance, SteppedAddress, ClippedSize;
    AdvanceIsNext(b, b.len - r.count);
    assert b.len - (r.count - 1) == b.len - r.count + 1;
  }

  lemma ReadBegins(r: ReadRegs, m: Memory, i: Inputs)
    requires r.state.RIdle? && ArFires(r, i) && i.rstN
    ensures var e := ReadStep(r, m, i); e.state.RBurst? && e.count == i.ar.len && WithinRead(e, i.ar)
  {
    SteppedAddressFirst(i.ar);
  }

  lemma ReadPositionKept(r: ReadRegs, m: Memory, t: ReadTrace, written: nat, i: Inputs)
    requires ReadPositionInv(r, t) && i.rstN
    ensures ReadPositionInv(ReadStep(r, m, i), ObserveRead(t, r, ReadStep(r, m, i), written, i))
  {
    hide Beats, Advance, SteppedAddress, ClippedSize;
    SeenGrows(r, m, t, written, i);
    if ArFires(r, i) {
      BeatsAppend(t.ars, i.ar);
      ReadBegins(r, m, i);
    } else if Loads(r, i) && r.count > 0 {
      WithinReadKept(r, m, t.ars[|t.ars| - 1], i);
    }
  }

  /** The beat about to be loaded is the one the registers describe. */
  lemma NextReadBeat(r: ReadRegs, t: ReadTrace)
    requires ReadPositionInv(r, t) && r.state.RBurst?
    ensures |t.seen| < |Beats(t.ars)|
    ensures Beats(t.ars)[|t.seen|] == Beat(r.id, r.addr / 4, r.count == 0)
  {
    var last := |t.ars| - 1;
    var b := t.ars[last];
    BeatsAppend(t.ars[..last], b);
    assert t.ars[..last] + [b] == t.ars;
    assert |t.seen| == |Beats(t.ars[..last])| + (b.len - r.count);
    SteppedAddressHitsStandardWord(b, b.len - r.count);
  }

  /** Accepting further write bursts and beats does not change the memory after the first `n`. */
  lemma PlainMemoryStable(w: WriteRegs, m: Memory, wt: WriteTrace, i: Inputs, n: nat)
    requires WriteInv(w, m, wt) && i.rstN && n <= |wt.ws|
    ensures var next := ObserveWrite(wt, w, m, i);
            n <= |next.ws| <= |Beats(next.aws)| && PlainMemory(next, n) == PlainMemory(wt, n)
  {
    var next := ObserveWrite(wt, w, m, i);
    WriteStepKeeps(w, m, wt, i);
    assert next.ws[..n] == wt.ws[..n];
    if AwFires(w, i) {
      BeatsAppend(wt.aws, i.aw);
      ReplayPrefix(wt.base, Beats(wt.aws), BurstBeats(i.aw), wt.ws[..n]);
    }
  }

  lemma OfferedBefore(r: ReadRegs, m: Memory, t: ReadTrace, wt: WriteTrace, i: Inputs)
    requires ReadInv(r, t, wt) && i.rstN
    ensures var next := ReadStep(r, m, i);
            var after := ObserveRead(t, r, next, |wt.ws|, i);
            after.rs + HeldBeat(next) ==
            t.rs + HeldBeat(r) + (if OffersNew(r, next, i) then HeldBeat(next) else [])
  {
  }

  /** A loaded beat is the expected one for the writes accepted so far. */
  lemma LoadIsExpected(r: ReadRegs, w: WriteRegs, m: Memory, t: ReadTrace, wt: WriteTrace, i: Inputs)
    requires WriteInv(w, m, wt) && ReadInv(r, t, wt) && i.rstN && Loads(r, i)
    ensures |t.seen| < |Beats(t.ars)|
    ensures HeldBeat(ReadStep(r, m, i)) == [ExpectedBeat(wt, Beats(t.ars)[|t.seen|], |wt.ws|)]
  {
    NextReadBeat(r, t);
    assert wt.ws[..|wt.ws|] == wt.ws;
  }

  /** The beats of the accepted read bursts only grow. */
  lemma BeatsGrow(t: ReadTrace, r: ReadRegs, next: ReadRegs, written: nat, i: Inputs, k: nat)
    requires i.rstN && k < |Beats(t.ars)|
    ensures var after := ObserveRead(t, r, next, written, i);
            |Beats(t.ars)| <= |Beats(after.ars)| && Beats(after.ars)[k] == Beats(t.ars)[k]
  {
    BeatsAppend(t.ars, i.ar);
  }

  lemma OldBeatKept(
    r: ReadRegs, w: WriteRegs, m: Memory, t: ReadTrace, wt: WriteTrace, i: Inputs, k: nat)
    requires WriteInv(w, m, wt) && ReadInv(r, t, wt) && i.rstN && k < |t.seen|
    ensures BeatIsExpected(ReadStep(r, m, i), ObserveRead(t, r, ReadStep(r, m, i), |wt.ws|, i),
                           ObserveWrite(wt, w, m, i), k, t.seen[k])
  {
    assert BeatIsExpected(r, t, wt, k, t.seen[k]);
    hide ReadStep, ObserveWrite, Replay, Beats, WriteStep;
    OfferedBefore(r, m, t, wt, i);
    PlainMemoryStable(w, m, wt, i, t.seen[k]);
    BeatsGrow(t, r, ReadStep(r, m, i), |wt.ws|, i, k);
  }

  lemma NewBeatExpected(r: ReadRegs, w: WriteRegs, m: Memory, t: ReadTrace, wt: WriteTrace, i: Inputs)
    requires WriteInv(w, m, wt) && ReadInv(r, t, wt) && i.rstN && Loads(r, i)
    ensures BeatIsExpected(ReadStep(r, m, i), ObserveRead(t, r, ReadStep(r, m, i), |wt.ws|, i),
                           ObserveWrite(wt, w, m, i), |t.seen|, |wt.ws|)
  {
    hide ObserveWrite, Replay, Beats;
    OfferedBefore(r, m, t, wt, i);
    PlainMemoryStable(w, m, wt, i, |wt.ws|);
    LoadIsExpected(r, w, m, t, wt, i);
    BeatsGrow(t, r, ReadStep(r, m, i), |wt.ws|, i, |t.seen|);
  }

  lemma SeenAt(r: ReadRegs, m: Memory, t: ReadTrace, written: nat, i: Inputs, k: nat)
    requires i.rstN && k < |ObserveRead(t, r, ReadStep(r, m, i), written, i).seen|
    ensures var seen := ObserveRead(t, r, ReadStep(r, m, i), written, i).seen;
            if k < |t.seen| then seen[k] == t.seen[k]
            else Loads(r, i) && k == |t.seen| && seen[k] == written
  {
    SeenGrows(r, m, t, written, i);
  }

  lemma OfferedBeatKept(
    r: ReadRegs, w: WriteRegs, m: Memory, t: ReadTrace, wt: WriteTrace, i: Inputs, k: nat)
    requires WriteInv(w, m, wt) && ReadInv(r, t, wt) && i.rstN
    requires k < |ObserveRead(t, r, ReadStep(r, m, i), |wt.ws|, i).seen|
    ensures var after := ObserveRead(t, r, ReadStep(r, m, i), |wt.ws|, i);
            BeatIsExpected(ReadStep(r, m, i), after, ObserveWrite(wt, w, m, i), k, after.seen[k])
  {
    hide *;
    SeenAt(r, m, t, |wt.ws|, i, k);
    if k < |t.seen| {
      OldBeatKept(r, w, m, t, wt, i, k);
    } else {
      NewBeatExpected(r, w, m, t, wt, i);
    }
  }

  lemma BeatCountsKept(r: ReadRegs, w: WriteRegs, m: Memory, t: ReadTrace, wt: WriteTrace, i: Inputs)
    requires WriteInv(w, m, wt) && ReadInv(r, t, wt) && i.rstN
    ensures var next, wafter := ReadStep(r, m, i), ObserveWrite(wt, w, m, i);
            var after := ObserveRead(t, r, next, |wt.ws|, i);
            |wafter.ws| <= |Beats(wafter.aws)| && |after.seen| == |after.rs + HeldBeat(next)| <= |Beats(after.ars)|
  {
    hide ReadStep, WriteStep, ObserveRead, ObserveWrite, Beats;
    ReadPositionKept(r, m, t, |wt.ws|, i);
    WriteStepKeeps(w, m, wt, i);
  }

  lemma ReadDataKept(r: ReadRegs, w: WriteRegs, m: Memory, t: ReadTrace, wt: WriteTrace, i: Inputs)
    requires WriteInv(w, m, wt) && ReadInv(r, t, wt) && i.rstN
    ensures ReadDataInv(ReadStep(r, m, i), ObserveRead(t, r, ReadStep(r, m, i), |wt.ws|, i),
                        ObserveWrite(wt, w, m, i))
  {
    var next, wafter := ReadStep(r, m, i), ObserveWrite(wt, w, m, i);
    var after := ObserveRead(t, r, next, |wt.ws|, i);
    hide ReadStep, WriteStep, ObserveRead, ObserveWrite, Beats, BeatIsExpected, WriteInv, ReadInv;
    BeatCountsKept(r, w, m, t, wt, i);
    forall k | 0 <= k < |after.seen| ensures BeatIsExpected(next, after, wafter, k, after.seen[k]) {
      OfferedBeatKept(r, w, m, t, wt, i, k);
    }
  }

  lemma ReadStepKeeps(r: ReadRegs, w: WriteRegs, m: Memory, t: ReadTrace, wt: WriteTrace, i: Inputs)
    requires WriteInv(w, m, wt) && ReadInv(r, t, wt)
    ensures ReadInv(ReadStep(r, m, i), ObserveRead(t, r, ReadStep(r, m, i), |wt.ws|, i),
                    ObserveWrite(wt, w, m, i))
  {
    if i.rstN {
      ReadPositionKept(r, m, t, |wt.ws|, i);
      ReadDataKept(r, w, m, t, wt, i);
    } else {
      FreshReadInv(ReadStep(r, m, i), ReadTrace([], [], []), ObserveWrite(wt, w, m, i));
    }
  }
}
