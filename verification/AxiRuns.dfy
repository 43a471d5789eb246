/** Whole runs of the AXI4 RAM from power-on or reset, under arbitrary inputs at every edge. */
module AxiRuns {
  import opened Basics
  import opened AxiTypes
  import opened AxiRam
  import opened AxiWriteChannel
  import opened AxiReadChannel

  datatype System = System(w: WriteRegs, r: ReadRegs, m: Memory)

  datatype History = History(wt: WriteTrace, rt: ReadTrace)

  function Step(s: System, i: Inputs): System {
    System(WriteStep(s.w, i), ReadStep(s.r, s.m, i), MemoryStep(s.m, s.w, i))
  }

  /** The handshakes visible at the edge; a reset edge starts both traces afresh. */
  function Observe(h: History, s: System, i: Inputs): History {
    History(ObserveWrite(h.wt, s.w, s.m, i),
            ObserveRead(h.rt, s.r, ReadStep(s.r, s.m, i), |h.wt.ws|, i))
  }

  function Run(s: System, ins: seq<Inputs>): System
    decreases |ins|
  {
    if ins == [] then s else Run(Step(s, ins[0]), ins[1..])
  }

  function Recorded(s: System, h: History, ins: seq<Inputs>): History
    decreases |ins|
  {
    if ins == [] then h else Recorded(Step(s, ins[0]), Observe(h, s, ins[0]), ins[1..])
  }

  /** Power-on, or any state a reset edge leaves: other registers may hold anything. */
  ghost predicate Start(s: System, h: History) {
    WriteFresh(s.w, s.m, h.wt) && ReadFresh(s.r, h.rt)
  }

  ghost predicate Inv(s: System, h: History) {
    WriteInv(s.w, s.m, h.wt) && ReadInv(s.r, h.rt, h.wt)
  }

  lemma StepKeeps(s: System, h: History, i: Inputs)
    requires Inv(s, h)
    ensures Inv(Step(s, i), Observe(h, s, i))
  {
    WriteStepKeeps(s.w, s.m, h.wt, i);
    ReadStepKeeps(s.r, s.w, s.m, h.rt, h.wt, i);
  }

  lemma {:induction false} InvAlongRun(s: System, h: History, ins: seq<Inputs>)
    requires Inv(s, h)
    ensures Inv(Run(s, ins), Recorded(s, h, ins))
    decreases |ins|
  {
    if ins != [] {
      StepKeeps(s, h, ins[0]);
      InvAlongRun(Step(s, ins[0]), Observe(h, s, ins[0]), ins[1..]);
    }
  }

  lemma {:induction false} InvFromStart(s: System, h: History, ins: seq<Inputs>)
    requires Start(s, h)
    ensures Inv(Run(s, ins), Recorded(s, h, ins))
  {
    FreshWriteInv(s.w, s.m, h.wt);
    FreshReadInv(s.r, h.rt, h.wt);
    InvAlongRun(s, h, ins);
  }

  /** Power-on and every reset edge, from whatever state, start a run afresh. */
  lemma ResetStartsAfresh(s: System, h: History, i: Inputs)
    requires !i.rstN
    ensures Start(Step(s, i), Observe(h, s, i))
    ensures var w, r := Step(s, i).w, Step(s, i).r;
            && w.state.WIdle? && !w.awready && !w.wready && !w.bvalid
            && r.state.RIdle? && !r.arready && !r.rvalid
    ensures Start(System(WriteRegs(WIdle, 0, 0, 0, 0, 0, false, false, 0, false),
                         ReadRegs(RIdle, 0, 0, 0, 0, 0, false, 0, ZERO_WORD, false, false), InitialMemory()),
                  History(WriteTrace(InitialMemory(), [], [], []), ReadTrace([], [], [])))
  {
  }

  // ----- Write channels

  /** Responses come back in the order of the accepted addresses, none lost and none invented;
      at any time the accepted bursts without a handshaken response are the one on offer and
      the one under way. */
  lemma WriteResponsesInOrder(s: System, h: History, ins: seq<Inputs>)
    requires Start(s, h)
    ensures var e, t := Run(s, ins), Recorded(s, h, ins).wt;
            && t.bs + HeldResponse(e.w) + OpenBurst(e.w) == Ids(t.aws)
            && |t.aws| - |t.bs| == (if e.w.state.WIdle? then 0 else 1) + (if e.w.bvalid then 1 else 0)
  {
    InvFromStart(s, h, ins);
    var t := Recorded(s, h, ins).wt;
    assert |Ids(t.aws)| == |t.aws|;
  }

  function TotalBeats(bursts: seq<Burst>): nat {
    if bursts == [] then 0 else TotalBeats(bursts[..|bursts| - 1]) + bursts[|bursts| - 1].len + 1
  }

  lemma {:induction false} BeatsCount(bursts: seq<Burst>)
    ensures |Beats(bursts)| == TotalBeats(bursts)
  {
    if bursts != [] {
      BeatsCount(bursts[..|bursts| - 1]);
    }
  }

  lemma DataBeforeAnswer(w: WriteRegs, t: WriteTrace)
    requires ControlInv(w) && ResponseInv(w, t) && PositionInv(w, t)
    ensures var answered := |t.bs| + |HeldResponse(w)|;
            && |t.ws| + OwedBeats(w) == TotalBeats(t.aws)
            && answered <= |t.aws| && TotalBeats(t.aws[..answered]) <= |t.ws|
  {
    hide Beats, SteppedAddress;
    BeatsCount(t.aws);
    assert |Ids(t.aws)| == |t.aws|;
    assert t.aws[..|t.aws|] == t.aws;
  }

  /** Every burst takes exactly one more beat than its length field, and its response is only
      offered after all of them. */
  lemma ResponseFollowsData(s: System, h: History, ins: seq<Inputs>)
    requires Start(s, h)
    ensures var e, t := Run(s, ins), Recorded(s, h, ins).wt;
            var answered := |t.bs| + |HeldResponse(e.w)|;
            && |t.ws| + OwedBeats(e.w) == TotalBeats(t.aws)
            && (e.w.wready <==> e.w.state.WBurst?) && (e.w.awready ==> e.w.state.WIdle?)
            && (e.w.state.WResp? ==> e.w.bvalid)
            && answered <= |t.aws| && TotalBeats(t.aws[..answered]) <= |t.ws|
  {
    hide Run, Recorded, ResponseInv, PositionInv, ContentsInv, ReadInv;
    InvFromStart(s, h, ins);
    DataBeforeAnswer(Run(s, ins).w, Recorded(s, h, ins).wt);
  }

  /** The memory is at all times the plain memory to which the accepted write beats were
      applied in order. Each goes to the word `BeatAddress` gives its position, which is the
      specified one for FIXED and INCR bursts; `AxiWrap` says when it is for WRAP ones. */
  lemma MemoryIsPlain(s: System, h: History, ins: seq<Inputs>)
    requires Start(s, h)
    ensures var t := Recorded(s, h, ins).wt;
            |t.ws| <= |Beats(t.aws)| && Run(s, ins).m == Replay(t.base, Beats(t.aws), t.ws)
  {
    InvFromStart(s, h, ins);
  }

  // ----- Read channels

  /** Identity and end mark of a read beat, without its data. */
  datatype Mark = Mark(id: Byte, last: bool)

  function Marks(beats: seq<Beat>): seq<Mark> {
    seq(|beats|, k requires 0 <= k < |beats| => Mark(beats[k].id, beats[k].last))
  }

  function ReadMarks(rs: seq<RBeat>): seq<Mark> {
    seq(|rs|, k requires 0 <= k < |rs| => Mark(rs[k].id, rs[k].last))
  }

  /** The beats the registers still promise: the rest of the burst under way. */
  function OwedMarks(r: ReadRegs): seq<Mark> {
    seq(OwedReads(r), n requires 0 <= n < OwedReads(r) => Mark(r.id, n == r.count))
  }

  lemma OwedBeatAt(r: ReadRegs, t: ReadTrace, n: nat)
    requires ReadPositionInv(r, t) && n < OwedReads(r)
    ensures |t.seen| + n < |Beats(t.ars)|
    ensures var beat := Beats(t.ars)[|t.seen| + n];
            Mark(beat.id, beat.last) == OwedMarks(r)[n]
  {
    var last := |t.ars| - 1;
    BeatsAppend(t.ars[..last], t.ars[last]);
    assert t.ars[..last] + [t.ars[last]] == t.ars;
    assert |t.seen| == |Beats(t.ars[..last])| + (t.ars[last].len - r.count);
  }

  /** Under any back-pressure, the read beats handshaken, the one on offer and the ones still
      owed are, in order, exactly the beats of the accepted read bursts: length plus one each,
      carrying its ID, with `last` on the final one only. */
  lemma ReadBeatsInOrder(s: System, h: History, ins: seq<Inputs>)
    requires Start(s, h)
    ensures var e, t := Run(s, ins), Recorded(s, h, ins).rt;
            ReadMarks(t.rs + HeldBeat(e.r)) + OwedMarks(e.r) == Marks(Beats(t.ars))
  {
    InvFromStart(s, h, ins);
    var e, t := Run(s, ins), Recorded(s, h, ins).rt;
    var offered := t.rs + HeldBeat(e.r);
    forall k | 0 <= k < |Beats(t.ars)|
      ensures (ReadMarks(offered) + OwedMarks(e.r))[k] == Marks(Beats(t.ars))[k]
    {
      if k >= |t.seen| {
        OwedBeatAt(e.r, t, k - |t.seen|);
      } else {
        assert BeatIsExpected(e.r, t, Recorded(s, h, ins).wt, k, t.seen[k]);
      }
    }
  }

  /** Every read beat carries the word of its burst position as the plain memory stood after
      the write beats accepted before the edge that loaded it. */
  lemma ReadsArePlain(s: System, h: History, ins: seq<Inputs>, k: nat)
    requires Start(s, h) && k < |Recorded(s, h, ins).rt.rs|
    ensures var t, wt := Recorded(s, h, ins).rt, Recorded(s, h, ins).wt;
            && k < |t.seen| && t.seen[k] <= |wt.ws| <= |Beats(wt.aws)| && k < |Beats(t.ars)|
            && t.rs[k].data == Replay(wt.base, Beats(wt.aws), wt.ws[..t.seen[k]])[Beats(t.ars)[k].word]
  {
    InvFromStart(s, h, ins);
    var e, t := Run(s, ins), Recorded(s, h, ins).rt;
    assert BeatIsExpected(e.r, t, Recorded(s, h, ins).wt, k, t.seen[k]);
    assert (t.rs + HeldBeat(e.r))[k] == t.rs[k];
  }

  ghost predicate NoReset(ins: seq<Inputs>) {
    forall n :: 0 <= n < |ins| ==> ins[n].rstN
  }

  /** A load never looks at a memory older than the point of the run it happens after: what
      was written before that point is visible to every later load. With `ReadBeatsInOrder`
      this covers every read burst accepted after a write response. */
  lemma {:induction false} LaterLoadsSeeEarlierWrites(s: System, h: History, ins: seq<Inputs>)
    requires NoReset(ins)
    ensures var later := Recorded(s, h, ins);
            && |h.wt.ws| <= |later.wt.ws| && |h.rt.seen| <= |later.rt.seen|
            && (forall k :: 0 <= k < |h.rt.seen| ==> later.rt.seen[k] == h.rt.seen[k])
            && (forall k :: |h.rt.seen| <= k < |later.rt.seen| ==> later.rt.seen[k] >= |h.wt.ws|)
    decreases |ins|
  {
    if ins != [] {
      assert ins[0].rstN;
      LaterLoadsSeeEarlierWrites(Step(s, ins[0]), Observe(h, s, ins[0]), ins[1..]);
      var next := Observe(h, s, ins[0]);
      assert forall k :: 0 <= k < |h.rt.seen| ==> next.rt.seen[k] == h.rt.seen[k];
      assert forall k :: |h.rt.seen| <= k < |next.rt.seen| ==> next.rt.seen[k] == |h.wt.ws|;
    }
  }

  // ----- Handshake stability and progress

  /** A response on offer stays, unchanged, for as long as it is not taken, even when the next
      burst is accepted and finished meanwhile (section A3.2.1 of IHI 0022). */
  lemma {:induction false} ResponseHeldUntilTaken(s: System, ins: seq<Inputs>)
    requires NoReset(ins) && s.w.bvalid
    requires forall n :: 0 <= n < |ins| ==> !ins[n].bready
    ensures Run(s, ins).w.bvalid && Run(s, ins).w.bid == s.w.bid
    decreases |ins|
  {
    if ins != [] {
      assert ins[0].rstN && !ins[0].bready;
      ResponseHeldUntilTaken(Step(s, ins[0]), ins[1..]);
    }
  }

  /** The same for a read beat: ID, data and last mark are kept until it is taken, although the
      memory under it may change. */
  lemma {:induction false} ReadBeatHeldUntilTaken(s: System, ins: seq<Inputs>)
    requires NoReset(ins) && s.r.rvalid
    requires forall n :: 0 <= n < |ins| ==> !ins[n].rready
    ensures HeldBeat(Run(s, ins).r) == HeldBeat(s.r)
    decreases |ins|
  {
    if ins != [] {
      assert ins[0].rstN && !ins[0].rready;
      ReadBeatHeldUntilTaken(Step(s, ins[0]), ins[1..]);
    }
  }

  /** One edge after reset both address channels are ready, and stay so until an address comes. */
  lemma {:induction false} ReadyUntilAddress(s: System, ins: seq<Inputs>)
    requires NoReset(ins) && ins != []
    requires s.w.state.WIdle? && s.r.state.RIdle?
    requires forall n :: 0 <= n < |ins| ==> !ins[n].awvalid && !ins[n].arvalid
    ensures var e := Run(s, ins);
            e.w.state.WIdle? && e.w.awready && e.r.state.RIdle? && e.r.arready
    decreases |ins|
  {
    assert ins[0].rstN && !ins[0].awvalid && !ins[0].arvalid;
    if |ins| > 1 {
      ReadyUntilAddress(Step(s, ins[0]), ins[1..]);
    } else {
      assert ins[1..] == [];
    }
  }

  lemma {:induction false} RunAppend(s: System, ins: seq<Inputs>, last: Inputs)
    ensures Run(s, ins + [last]) == Step(Run(s, ins), last)
    decreases |ins|
  {
    if ins == [] {
      assert ([] + [last])[1..] == [];
    } else {
      assert (ins + [last])[1..] == ins[1..] + [last];
      RunAppend(Step(s, ins[0]), ins[1..], last);
    }
  }

  /** Edges at which the read output register is free: nothing on offer, or the offer taken. */
  function FreeEdges(s: System, ins: seq<Inputs>): nat
    decreases |ins|
  {
    if ins == [] then 0
    else (if ins[0].rready || !s.r.rvalid then 1 else 0) + FreeEdges(Step(s, ins[0]), ins[1..])
  }

  lemma ReadBurstEdge(r: ReadRegs, m: Memory, i: Inputs)
    requires i.rstN && r.state.RBurst? && (Loads(r, i) ==> r.count > 0)
    ensures var e := ReadStep(r, m, i);
            e.state.RBurst? && e.id == r.id && e.count == r.count - (if Loads(r, i) then 1 else 0)
  {
  }

  /** A read burst loads a beat at every free edge and at no other. */
  lemma {:induction false} ReadBurstProceeds(s: System, ins: seq<Inputs>)
    requires NoReset(ins) && s.r.state.RBurst? && FreeEdges(s, ins) <= s.r.count
    ensures var e := Run(s, ins).r;
            e.state.RBurst? && e.id == s.r.id && e.count == s.r.count - FreeEdges(s, ins)
    decreases |ins|
  {
    if ins != [] {
      assert ins[0].rstN;
      ReadBurstEdge(s.r, s.m, ins[0]);
      hide WriteStep, ReadStep, MemoryStep;
      ReadBurstProceeds(Step(s, ins[0]), ins[1..]);
    }
  }

  /** Whatever the pattern of `rready`, a read burst under way with `count` beats after the next
      one is loaded at the edge that is the `count + 1`-st to find the output register free:
      before it the burst is still under way, after it its last beat is on offer and the RAM is
      ready for the next address. */
  lemma ReadBurstDrains(s: System, before: seq<Inputs>, last: Inputs)
    requires NoReset(before) && last.rstN && s.r.state.RBurst?
    requires FreeEdges(s, before) == s.r.count && (last.rready || !Run(s, before).r.rvalid)
    ensures Run(s, before).r.state.RBurst?
    ensures var e := Run(s, before + [last]).r;
            e.state.RIdle? && e.arready && HeldBeat(e) == [RBeat(s.r.id, e.rdata, true)]
  {
    ReadBurstProceeds(s, before);
    RunAppend(s, before, last);
  }

  /** Edges at which the master offers write data. */
  function DataEdges(ins: seq<Inputs>): nat {
    if ins == [] then 0 else (if ins[0].wvalid then 1 else 0) + DataEdges(ins[1..])
  }

  lemma WriteBurstEdge(w: WriteRegs, i: Inputs)
    requires i.rstN && w.state.WBurst? && w.wready && (i.wvalid ==> w.count > 0)
    ensures var e := WriteStep(w, i);
            e.state.WBurst? && e.wready && e.id == w.id && e.count == w.count - (if i.wvalid then 1 else 0)
  {
  }

  /** A write burst takes a beat at every edge with data and at no other. */
  lemma {:induction false} WriteBurstProceeds(s: System, ins: seq<Inputs>)
    requires NoReset(ins) && s.w.state.WBurst? && s.w.wready && DataEdges(ins) <= s.w.count
    ensures var e := Run(s, ins).w;
            e.state.WBurst? && e.wready && e.id == s.w.id && e.count == s.w.count - DataEdges(ins)
    decreases |ins|
  {
    if ins != [] {
      assert ins[0].rstN;
      WriteBurstEdge(s.w, ins[0]);
      hide WriteStep, ReadStep, MemoryStep;
      WriteBurstProceeds(Step(s, ins[0]), ins[1..]);
    }
  }

  /** A parked response waits until the response before it is taken. */
  lemma {:induction false} ParkedResponseWaits(s: System, ins: seq<Inputs>)
    requires NoReset(ins) && s.w.state.WResp? && s.w.bvalid
    requires forall n :: 0 <= n < |ins| ==> !ins[n].bready
    ensures var e := Run(s, ins).w;
            e.state.WResp? && e.bvalid && e.id == s.w.id && e.bid == s.w.bid
    decreases |ins|
  {
    if ins != [] {
      assert ins[0].rstN && !ins[0].bready;
      ParkedResponseWaits(Step(s, ins[0]), ins[1..]);
    }
  }

  lemma ParkedResponseOffered(s: System, waiting: seq<Inputs>, taken: Inputs)
    requires NoReset(waiting) && s.w.state.WResp? && s.w.bvalid
    requires (forall n :: 0 <= n < |waiting| ==> !waiting[n].bready) && taken.rstN && taken.bready
    ensures var e := Run(s, waiting + [taken]).w;
            e.state.WIdle? && e.awready && e.bvalid && e.bid == s.w.id
  {
    ParkedResponseWaits(s, waiting);
    RunAppend(s, waiting, taken);
  }

  /** Whatever the pattern of `wvalid`, a write burst under way takes its last beat at the edge
      that is the `count + 1`-st to bring data. Its response is then on offer, unless an earlier
      one still waits; in that case it is parked and comes at the first edge that takes the
      earlier one. */
  lemma WriteBurstCompletes(s: System, before: seq<Inputs>, last: Inputs, waiting: seq<Inputs>, taken: Inputs)
    requires NoReset(before) && last.rstN && NoReset(waiting) && taken.rstN
    requires s.w.state.WBurst? && s.w.wready && DataEdges(before) == s.w.count && last.wvalid
    requires (forall n :: 0 <= n < |waiting| ==> !waiting[n].bready) && taken.bready
    ensures Run(s, before).w.state.WBurst?
    ensures var free := last.bready || !Run(s, before).w.bvalid;
            var done := Run(s, before + [last]);
            var e := if free then done.w else Run(done, waiting + [taken]).w;
            && (!free ==> done.w.state.WResp? && !done.w.awready && done.w.bid == Run(s, before).w.bid)
            && e.state.WIdle? && e.awready && e.bvalid && e.bid == s.w.id
  {
    WriteBurstProceeds(s, before);
    RunAppend(s, before, last);
    if !last.bready && Run(s, before).w.bvalid {
      ParkedResponseOffered(Run(s, before + [last]), waiting, taken);
    }
  }
}
