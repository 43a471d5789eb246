/** Several transfers of the stream-to-memory channel in a row: what each stores, and what is
    lost between them. */
module AxiTransfers {
  import opened Basics
  import opened Bits
  import opened AxiDma
  import opened AxiMm2s
  import opened AxiS2mm

  /** What the driver programs: an address and a length, LENGTH being written last. */
  datatype Job = Job(addr: U64, length: U32)

  function Program(s: State, job: Job): State {
    var addressed := Written(Written(s.regs, WriteAddr(Low32(job.addr))), WriteAddrMsb(High32(job.addr)));
    State(Written(addressed, WriteLength(job.length)), 0, s.mem)
  }

  /** The pieces an idle channel has not taken yet. */
  function Waiting(s: State, pieces: seq<Piece>): seq<Piece>
    decreases |pieces|
  {
    if pieces == [] || s.regs.idle then pieces else Waiting(Taken(s, pieces[0]), pieces[1..])
  }

  /** What a run of jobs leaves: the channel, the pieces still held back, and the value of LENGTH
      the driver read after each completed job. */
  datatype Log = Log(state: State, left: seq<Piece>, reported: seq<nat>)

  /** The driver programs the next job when the one before has completed. */
  function Serve(s: State, jobs: seq<Job>, pieces: seq<Piece>): Log
    decreases |jobs|
  {
    if jobs == [] then Log(s, pieces, [])
    else
      var start := Program(s, jobs[0]);
      var end, left := Fed(start, pieces), Waiting(start, pieces);
      if !end.regs.idle then Log(end, left, [])
      else
        var later := Serve(end, jobs[1..], left);
        later.(reported := [end.regs.length] + later.reported)
  }

  // ----- The same in terms of the stream alone

  /** How many pieces a job of `v` bytes takes. */
  function Takes(v: nat, pieces: seq<Piece>): (n: nat)
    ensures n <= |pieces|
    decreases |pieces|
  {
    if pieces == [] then 0
    else if |pieces[0].data| >= v || pieces[0].eop then 1
    else 1 + Takes(v - |pieces[0].data|, pieces[1..])
  }

  /** The bytes of the pieces taken. */
  function Arrived(v: nat, pieces: seq<Piece>): seq<Byte> {
    Flatten(pieces[..Takes(v, pieces)])
  }

  /** The job is full, or the last piece taken ended the packet. */
  predicate Completes(v: nat, pieces: seq<Piece>) {
    var n := Takes(v, pieces);
    n > 0 && (|Arrived(v, pieces)| >= v || pieces[n - 1].eop)
  }

  /** What arrived for a job: the part stored and the part dropped. */
  datatype Receipt = Receipt(stored: seq<Byte>, lost: seq<Byte>)

  function ReceiptOf(v: nat, pieces: seq<Piece>): Receipt {
    var data := Arrived(v, pieces);
    Receipt(CutOff(v, data), data[Min(v, |data|)..])
  }

  function Receipts(jobs: seq<Job>, pieces: seq<Piece>): seq<Receipt>
    decreases |jobs|
  {
    if jobs == [] then []
    else
      var v := jobs[0].length;
      [ReceiptOf(v, pieces)] + if Completes(v, pieces) then Receipts(jobs[1..], pieces[Takes(v, pieces)..]) else []
  }

  function Leftover(jobs: seq<Job>, pieces: seq<Piece>): seq<Piece>
    decreases |jobs|
  {
    if jobs == [] then pieces
    else
      var left := pieces[Takes(jobs[0].length, pieces)..];
      if Completes(jobs[0].length, pieces) then Leftover(jobs[1..], left) else left
  }

  function StoredAll(mem: Store, jobs: seq<Job>, receipts: seq<Receipt>): Store
    requires |receipts| <= |jobs|
    decreases |receipts|
  {
    if receipts == [] then mem
    else StoredAll(Stored(mem, jobs[0].addr, receipts[0].stored), jobs[1..], receipts[1..])
  }

  /** All that arrived, in order. */
  function AllBytes(receipts: seq<Receipt>): seq<Byte> {
    if receipts == [] then [] else receipts[0].stored + receipts[0].lost + AllBytes(receipts[1..])
  }

  // ----- One job

  lemma TakesNone(v: nat)
    ensures Takes(v, []) == 0 && Arrived(v, []) == [] && !Completes(v, [])
  {
  }

  lemma TakesOne(v: nat, pieces: seq<Piece>)
    requires pieces != [] && (|pieces[0].data| >= v || pieces[0].eop)
    ensures Takes(v, pieces) == 1 && Arrived(v, pieces) == pieces[0].data && Completes(v, pieces)
  {
    var first := pieces[..1];
    assert first[0] == pieces[0] && first[1..] == [];
    assert Flatten(first) == first[0].data + Flatten(first[1..]);
    assert pieces[0].data + [] == pieces[0].data;
  }

  lemma TakesMore(v: nat, pieces: seq<Piece>)
    requires pieces != [] && |pieces[0].data| < v && !pieces[0].eop
    ensures var rest, w := pieces[1..], v - |pieces[0].data|;
            && Takes(v, pieces) == 1 + Takes(w, rest)
            && Arrived(v, pieces) == pieces[0].data + Arrived(w, rest)
            && Completes(v, pieces) == Completes(w, rest)
  {
    var rest, w := pieces[1..], v - |pieces[0].data|;
    var n := Takes(v, pieces);
    assert pieces[..n][1..] == rest[..n - 1];
    assert n > 1 ==> pieces[n - 1] == rest[n - 2];
  }

  /** The channel takes the pieces `Takes` counts, and completes when `Completes` says so. */
  lemma {:induction false} JobTakes(
    s: State, pieces: seq<Piece>, v: nat, base: nat, mem: Store, got: seq<Byte>)
    requires Busy(s, v, base, mem, got)
    ensures Waiting(s, pieces) == pieces[Takes(v - |got|, pieces)..]
    ensures var all := got + Arrived(v - |got|, pieces);
            if Completes(v - |got|, pieces) then Ended(Fed(s, pieces), base, mem, CutOff(v, all))
            else Busy(Fed(s, pieces), v, base, mem, all)
    decreases |pieces|
  {
    hide Taken, Stored, CutOff, Address, Takes, Arrived, Completes;
    var room := v - |got|;
    if pieces == [] {
      TakesNone(room);
      assert got + [] == got;
    } else {
      var p := pieces[0];
      TakenStores(s, p, v, base, mem, got);
      if |p.data| >= room || p.eop {
        TakesOne(room, pieces);
        FedStops(s, pieces);
      } else {
        TakesMore(room, pieces);
        JobTakes(Taken(s, p), pieces[1..], v, base, mem, got + p.data);
        assert got + (p.data + Arrived(room - |p.data|, pieces[1..])) ==
               got + p.data + Arrived(room - |p.data|, pieces[1..]);
        assert |got + p.data| == |got| + |p.data|;
      }
    }
  }

  lemma ProgramStarts(s: State, job: Job)
    requires job.addr + job.length < W64
    ensures Busy(Program(s, job), job.length, job.addr, s.mem, [])
  {
    CombineHalves(job.addr, 0, 0);
  }

  /** A job stores what arrived up to its length and drops the rest of the last piece taken. */
  lemma JobReceipt(s: State, job: Job, pieces: seq<Piece>)
    requires job.addr + job.length < W64
    ensures var start, got := Program(s, job), ReceiptOf(job.length, pieces);
            var end := Fed(start, pieces);
            && Waiting(start, pieces) == pieces[Takes(job.length, pieces)..]
            && (end.regs.idle <==> Completes(job.length, pieces))
            && end.mem == Stored(s.mem, job.addr, got.stored)
            && (end.regs.idle ==> end.regs.length == |got.stored|)
  {
    hide Program, Stored, Takes, Arrived, Completes, Fed, Waiting;
    var v := job.length;
    ProgramStarts(s, job);
    JobTakes(Program(s, job), pieces, v, job.addr, s.mem, []);
    assert [] + Arrived(v, pieces) == Arrived(v, pieces);
    UnfinishedIsShort(v, pieces);
  }

  /** As long as a job is not complete, everything that arrived fits. */
  lemma {:induction false} UnfinishedIsShort(v: nat, pieces: seq<Piece>)
    ensures !Completes(v, pieces) ==> CutOff(v, Arrived(v, pieces)) == Arrived(v, pieces)
    decreases |pieces|
  {
    var data := Arrived(v, pieces);
    if pieces == [] {
      TakesNone(v);
    } else if !(|pieces[0].data| >= v || pieces[0].eop) && !Completes(v, pieces) {
      assert Takes(v, pieces) > 0;
      assert data[..|data|] == data;
    } else if |pieces[0].data| >= v || pieces[0].eop {
      TakesOne(v, pieces);
    }
  }

  // ----- What is lost

  lemma {:induction false} FlattenAppend(front: seq<Piece>, back: seq<Piece>)
    ensures Flatten(front + back) == Flatten(front) + Flatten(back)
    decreases |front|
  {
    if front == [] {
      assert [] + back == back;
    } else {
      assert (front + back)[1..] == front[1..] + back;
      FlattenAppend(front[1..], back);
      assert front[0].data + (Flatten(front[1..]) + Flatten(back)) ==
             front[0].data + Flatten(front[1..]) + Flatten(back);
    }
  }

  /** The programmed length ends where a piece ends. */
  ghost predicate EndsAtPiece(v: nat, pieces: seq<Piece>) {
    exists n :: 0 < n <= |pieces| && |Flatten(pieces[..n])| == v
  }

  lemma EndsAtPieceUnfolds(v: nat, pieces: seq<Piece>)
    requires pieces != []
    ensures EndsAtPiece(v, pieces) <==>
            |pieces[0].data| == v || (|pieces[0].data| <= v && EndsAtPiece(v - |pieces[0].data|, pieces[1..]))
  {
    var first, rest := pieces[0].data, pieces[1..];
    forall n | 0 < n <= |pieces| ensures |Flatten(pieces[..n])| == |first| + |Flatten(rest[..n - 1])| {
      assert pieces[..n][1..] == rest[..n - 1];
    }
    if EndsAtPiece(v, pieces) {
      var n :| 0 < n <= |pieces| && |Flatten(pieces[..n])| == v;
      assert n > 1 ==> |Flatten(rest[..n - 1])| == v - |first|;
      assert n == 1 ==> rest[..n - 1] == [];
    }
    if |first| == v {
      assert rest[..0] == [];
      assert |Flatten(pieces[..1])| == v;
    }
    if |first| <= v && EndsAtPiece(v - |first|, rest) {
      var n :| 0 < n <= |rest| && |Flatten(rest[..n])| == v - |first|;
      assert |Flatten(pieces[..n + 1])| == v;
    }
  }

  /** A job loses nothing exactly when its length reaches the end of the packet or ends where one
      of the pieces ends; otherwise the rest of the piece that fills it is dropped. */
  lemma {:induction false} NothingLostIff(v: nat, pieces: seq<Piece>)
    ensures ReceiptOf(v, pieces).lost == [] <==> |PacketBytes(pieces)| <= v || EndsAtPiece(v, pieces)
    decreases |pieces|
  {
    if pieces == [] {
      TakesNone(v);
    } else {
      EndsAtPieceUnfolds(v, pieces);
      var first, rest := pieces[0].data, pieces[1..];
      if |first| >= v || pieces[0].eop {
        TakesOne(v, pieces);
      } else {
        TakesMore(v, pieces);
        NothingLostIff(v - |first|, rest);
      }
    }
  }

  // ----- A run of jobs

  /** Nothing is duplicated or reordered: what the jobs stored and dropped, followed by what is
      still held back, is the stream. */
  lemma {:induction false} RunConservesBytes(jobs: seq<Job>, pieces: seq<Piece>)
    ensures AllBytes(Receipts(jobs, pieces)) + Flatten(Leftover(jobs, pieces)) == Flatten(pieces)
    decreases |jobs|
  {
    if jobs != [] {
      var v := jobs[0].length;
      var n := Takes(v, pieces);
      var rest := pieces[n..];
      var got := ReceiptOf(v, pieces);
      FlattenAppend(pieces[..n], rest);
      assert pieces[..n] + rest == pieces;
      assert got.stored + got.lost == Arrived(v, pieces);
      if Completes(v, pieces) {
        RunConservesBytes(jobs[1..], rest);
        assert Receipts(jobs, pieces)[1..] == Receipts(jobs[1..], rest);
      }
    }
  }

  /** The channel run over the jobs stores exactly the receipts, one after the other, holds back
      exactly the leftover and reports the stored lengths; it is idle once all jobs are done. */
  lemma {:induction false} RunStoresReceipts(s: State, jobs: seq<Job>, pieces: seq<Piece>)
    requires forall k :: 0 <= k < |jobs| ==> jobs[k].addr + jobs[k].length < W64
    ensures var got, log := Receipts(jobs, pieces), Serve(s, jobs, pieces);
            && |log.reported| <= |got| <= |jobs|
            && log.state.mem == StoredAll(s.mem, jobs, got)
            && log.left == Leftover(jobs, pieces)
            && (forall k :: 0 <= k < |log.reported| ==> log.reported[k] == |got[k].stored|)
            && (jobs != [] ==> (log.state.regs.idle <==> |log.reported| == |jobs|))
            && (jobs != [] ==> |got| == |log.reported| + if log.state.regs.idle then 0 else 1)
    decreases |jobs|
  {
    hide Program, Fed, Waiting, ReceiptOf, Takes, Completes, Stored;
    if jobs != [] {
      var v := jobs[0].length;
      JobReceipt(s, jobs[0], pieces);
      var end := Fed(Program(s, jobs[0]), pieces);
      if end.regs.idle {
        RunStoresReceipts(end, jobs[1..], pieces[Takes(v, pieces)..]);
      }
    }
  }

  // ----- When the cut of a packet matters

  /** What each job stores, nothing if it is never begun. */
  function Kept(jobs: seq<Job>, pieces: seq<Piece>): seq<seq<Byte>> {
    var got := Receipts(jobs, pieces);
    seq(|jobs|, k requires 0 <= k < |jobs| => if k < |got| then got[k].stored else [])
  }

  /** Each job's bytes stored at its address. */
  function StoreEach(mem: Store, jobs: seq<Job>, kept: seq<seq<Byte>>): Store
    requires |kept| == |jobs|
    decreases |jobs|
  {
    if jobs == [] then mem else StoreEach(Stored(mem, jobs[0].addr, kept[0]), jobs[1..], kept[1..])
  }

  lemma {:induction false} StoringNothing(mem: Store, jobs: seq<Job>, kept: seq<seq<Byte>>)
    requires |kept| == |jobs| && forall k :: 0 <= k < |kept| ==> kept[k] == []
    ensures StoreEach(mem, jobs, kept) == mem
    decreases |jobs|
  {
    if jobs != [] {
      StoringNothing(mem, jobs[1..], kept[1..]);
    }
  }

  lemma KeptCons(jobs: seq<Job>, pieces: seq<Piece>)
    requires jobs != []
    ensures var v := jobs[0].length;
            var rest := pieces[Takes(v, pieces)..];
            && Kept(jobs, pieces)[0] == ReceiptOf(v, pieces).stored
            && Kept(jobs, pieces)[1..] ==
               if Completes(v, pieces) then Kept(jobs[1..], rest) else seq(|jobs| - 1, _ => [])
  {
    hide Takes, Completes, ReceiptOf;
    var v := jobs[0].length;
    var rest := pieces[Takes(v, pieces)..];
    var got := Receipts(jobs, pieces);
    assert got[0] == ReceiptOf(v, pieces);
    assert got[1..] == if Completes(v, pieces) then Receipts(jobs[1..], rest) else [];
  }

  /** What the first and each later job store, in terms of what is left for the later ones. */
  lemma KeptAt(jobs: seq<Job>, pieces: seq<Piece>, k: nat)
    requires k < |jobs|
    ensures var v := jobs[0].length;
            Kept(jobs, pieces)[k] ==
            if k == 0 then ReceiptOf(v, pieces).stored
            else if Completes(v, pieces) then Kept(jobs[1..], pieces[Takes(v, pieces)..])[k - 1]
            else []
  {
    KeptCons(jobs, pieces);
    hide Takes, Completes, ReceiptOf, Kept;
    assert k > 0 ==> Kept(jobs, pieces)[k] == Kept(jobs, pieces)[1..][k - 1];
  }

  lemma {:induction false} KeptIsStored(mem: Store, jobs: seq<Job>, pieces: seq<Piece>)
    ensures |Receipts(jobs, pieces)| <= |jobs|
    ensures StoredAll(mem, jobs, Receipts(jobs, pieces)) == StoreEach(mem, jobs, Kept(jobs, pieces))
    decreases |jobs|
  {
    hide Takes, Completes, ReceiptOf, Stored;
    if jobs != [] {
      var v := jobs[0].length;
      var rest := pieces[Takes(v, pieces)..];
      var first := Stored(mem, jobs[0].addr, ReceiptOf(v, pieces).stored);
      var got := Receipts(jobs, pieces);
      KeptCons(jobs, pieces);
      assert got[1..] == if Completes(v, pieces) then Receipts(jobs[1..], rest) else [];
      if Completes(v, pieces) {
        KeptIsStored(first, jobs[1..], rest);
      } else {
        StoringNothing(first, jobs[1..], Kept(jobs, pieces)[1..]);
      }
    }
  }

  /** Where two streams leave the same bytes to every job, they leave the same memory. */
  lemma SameKeptSameMemory(s: State, jobs: seq<Job>, pieces: seq<Piece>, pieces': seq<Piece>)
    requires forall k :: 0 <= k < |jobs| ==> jobs[k].addr + jobs[k].length < W64
    requires Kept(jobs, pieces) == Kept(jobs, pieces')
    ensures Serve(s, jobs, pieces).state.mem == Serve(s, jobs, pieces').state.mem
  {
    hide Kept, Receipts, Serve;
    RunStoresReceipts(s, jobs, pieces);
    RunStoresReceipts(s, jobs, pieces');
    KeptIsStored(s.mem, jobs, pieces);
    KeptIsStored(s.mem, jobs, pieces');
  }

  /** One packet with these bytes, cut somehow. */
  ghost predicate IsCut(pieces: seq<Piece>, data: seq<Byte>) {
    && pieces != [] && Flatten(pieces) == data
    && (forall k :: 0 <= k < |pieces| ==> (pieces[k].eop <==> k == |pieces| - 1))
  }

  /** However the packet is cut, the jobs store the same bytes. */
  ghost predicate CutIrrelevant(jobs: seq<Job>, data: seq<Byte>) {
    forall p: seq<Piece>, q: seq<Piece> :: IsCut(p, data) && IsCut(q, data) ==> Kept(jobs, p) == Kept(jobs, q)
  }

  /** No job after the first has room for anything. */
  predicate OnlyFirstStores(jobs: seq<Job>) {
    forall k :: 1 <= k < |jobs| ==> jobs[k].length == 0
  }

  lemma {:induction false} LastTaken(v: nat, pieces: seq<Piece>)
    requires pieces != [] && pieces[|pieces| - 1].eop
    ensures Completes(v, pieces)
    decreases |pieces|
  {
    if |pieces[0].data| >= v || pieces[0].eop {
      TakesOne(v, pieces);
    } else {
      TakesMore(v, pieces);
      LastTaken(v - |pieces[0].data|, pieces[1..]);
    }
  }

  lemma FlattenSplit(v: nat, pieces: seq<Piece>)
    ensures Flatten(pieces) == Arrived(v, pieces) + Flatten(pieces[Takes(v, pieces)..])
  {
    var n := Takes(v, pieces);
    FlattenAppend(pieces[..n], pieces[n..]);
    assert pieces[..n] + pieces[n..] == pieces;
  }

  /** The first job stores the front of the packet, whatever the cut. */
  lemma FirstStores(v: nat, pieces: seq<Piece>, data: seq<Byte>)
    requires IsCut(pieces, data)
    ensures ReceiptOf(v, pieces).stored == CutOff(v, data)
  {
    LastTaken(v, pieces);
    FlattenSplit(v, pieces);
    var n := Takes(v, pieces);
    if n == |pieces| {
      assert pieces[..n] == pieces;
    } else {
      assert |Arrived(v, pieces)| >= v;
      hide Takes, Completes, Flatten, Arrived;
      assert data[..v] == Arrived(v, pieces)[..v];
    }
  }

  /** A job stores no more than it is programmed for, and nothing that is not on the stream. */
  lemma {:induction false} KeptBounded(jobs: seq<Job>, pieces: seq<Piece>, k: nat)
    requires k < |jobs|
    ensures |Kept(jobs, pieces)[k]| <= jobs[k].length && |Kept(jobs, pieces)[k]| <= |Flatten(pieces)|
    decreases |jobs|
  {
    hide Takes, Completes, Kept, Flatten, Arrived;
    var v := jobs[0].length;
    KeptAt(jobs, pieces, k);
    FlattenSplit(v, pieces);
    if k > 0 && Completes(v, pieces) {
      KeptBounded(jobs[1..], pieces[Takes(v, pieces)..], k - 1);
    }
  }

  /** Where only the first job can store anything of a packet, it stores its front. */
  lemma OnlyFirstKeeps(jobs: seq<Job>, pieces: seq<Piece>, data: seq<Byte>, k: nat)
    requires IsCut(pieces, data) && k < |jobs|
    requires |data| <= jobs[0].length || OnlyFirstStores(jobs)
    ensures Kept(jobs, pieces)[k] == if k == 0 then CutOff(jobs[0].length, data) else []
  {
    hide Takes, Completes, Kept, Flatten, Arrived;
    var v := jobs[0].length;
    KeptAt(jobs, pieces, k);
    FirstStores(v, pieces, data);
    FlattenSplit(v, pieces);
    if k > 0 && Completes(v, pieces) {
      KeptBounded(jobs[1..], pieces[Takes(v, pieces)..], k - 1);
    }
  }

  /** The whole packet in one piece leaves nothing to a later job. */
  lemma WholeLeavesNothing(jobs: seq<Job>, data: seq<Byte>, k: nat)
    requires 0 < k < |jobs|
    ensures IsCut([Piece(data, true)], data) && Kept(jobs, [Piece(data, true)])[k] == []
  {
    var whole := [Piece(data, true)];
    assert whole[1..] == [] && data + [] == data;
    hide Takes, Completes, Kept, Arrived;
    TakesOne(jobs[0].length, whole);
    KeptAt(jobs, whole, k);
    KeptBounded(jobs[1..], whole[1..], k - 1);
  }

  /** `pads` empty pieces, then the last one of the packet. */
  function Padded(pads: nat, data: seq<Byte>): seq<Piece> {
    if pads == 0 then [Piece(data, true)] else [Piece([], false)] + Padded(pads - 1, data)
  }

  lemma {:induction false} PaddedIsCut(pads: nat, data: seq<Byte>)
    ensures IsCut(Padded(pads, data), data)
    decreases pads
  {
    var pieces := Padded(pads, data);
    if pads == 0 {
      assert pieces[1..] == [] && data + [] == data;
    } else {
      PaddedIsCut(pads - 1, data);
      assert pieces[1..] == Padded(pads - 1, data) && [] + data == data;
      assert forall k :: 1 <= k < |pieces| ==> pieces[k] == pieces[1..][k - 1];
    }
  }

  /** Each job without room takes one empty piece, and the first with room gets the data. */
  lemma {:induction false} PaddedReaches(jobs: seq<Job>, data: seq<Byte>, k: nat)
    requires k < |jobs| && forall i :: 0 <= i < k ==> jobs[i].length == 0
    ensures Kept(jobs, Padded(k, data))[k] == CutOff(jobs[k].length, data)
    decreases k
  {
    var pieces := Padded(k, data);
    hide Takes, Completes, Kept, Arrived;
    TakesOne(jobs[0].length, pieces);
    KeptAt(jobs, pieces, k);
    if k > 0 {
      assert pieces[1..] == Padded(k - 1, data);
      PaddedReaches(jobs[1..], data, k - 1);
    }
  }

  /** A cut at the end of the first job, padded for the jobs without room, leaves the rest of the
      packet to the first later job with room. */
  lemma CutReachesLater(jobs: seq<Job>, data: seq<Byte>, k: nat) returns (pieces: seq<Piece>)
    requires 0 < k < |jobs| && jobs[0].length < |data|
    requires forall i :: 1 <= i < k ==> jobs[i].length == 0
    ensures IsCut(pieces, data)
    ensures Kept(jobs, pieces)[k] == CutOff(jobs[k].length, data[jobs[0].length..])
  {
    var v := jobs[0].length;
    var rest := Padded(k - 1, data[v..]);
    pieces := [Piece(data[..v], false)] + rest;
    assert pieces[1..] == rest && data[..v] + data[v..] == data;
    PaddedIsCut(k - 1, data[v..]);
    assert forall i :: 1 <= i < |pieces| ==> pieces[i] == rest[i - 1];
    assert IsCut(pieces, data);
    hide Takes, Completes, Kept, Arrived, IsCut, Padded, CutOff;
    TakesOne(v, pieces);
    KeptAt(jobs, pieces, k);
    PaddedReaches(jobs[1..], data[v..], k - 1);
  }

  lemma {:induction false} FirstWithRoom(jobs: seq<Job>, k: nat) returns (first: nat)
    requires 0 < k < |jobs| && jobs[k].length > 0
    ensures 0 < first <= k && jobs[first].length > 0
    ensures forall i :: 1 <= i < first ==> jobs[i].length == 0
    decreases k
  {
    if j :| 1 <= j < k && jobs[j].length > 0 {
      first := FirstWithRoom(jobs, j);
    } else {
      first := k;
    }
  }

  /** Two cuts of the packet that leave different bytes to a later job with room. */
  lemma CutMatters(jobs: seq<Job>, data: seq<Byte>)
    requires jobs != [] && jobs[0].length < |data| && !OnlyFirstStores(jobs)
    ensures !CutIrrelevant(jobs, data)
  {
    var j :| 1 <= j < |jobs| && jobs[j].length > 0;
    var k := FirstWithRoom(jobs, j);
    var cut := CutReachesLater(jobs, data, k);
    WholeLeavesNothing(jobs, data, k);
    assert Kept(jobs, cut)[k] != Kept(jobs, [Piece(data, true)])[k];
  }

  /** Over a run of jobs it does not matter how a packet is cut exactly when the first job takes
      all of it or no later job has room; with room, a cut can save what the whole piece loses. */
  lemma CutMattersIff(jobs: seq<Job>, data: seq<Byte>)
    ensures CutIrrelevant(jobs, data) <==>
            jobs == [] || |data| <= jobs[0].length || forall k :: 1 <= k < |jobs| ==> jobs[k].length == 0
  {
    if jobs != [] && |data| > jobs[0].length && !OnlyFirstStores(jobs) {
      CutMatters(jobs, data);
    } else {
      forall p: seq<Piece>, q: seq<Piece> | IsCut(p, data) && IsCut(q, data)
        ensures Kept(jobs, p) == Kept(jobs, q)
      {
        forall k | 0 <= k < |jobs| ensures Kept(jobs, p)[k] == Kept(jobs, q)[k] {
          OnlyFirstKeeps(jobs, p, data, k);
          OnlyFirstKeeps(jobs, q, data, k);
        }
      }
    }
  }
}
