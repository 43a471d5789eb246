/** The register width adapter: 32-bit writes are staged and joined into the 64-bit writes the
    role understands. */
module RegisterAdapter {
  import opened Basics
  import opened Bits

  /** The sentinel address of an adapter with no write in progress. */
  const NO_WRITE: U64 := W64 - 1

  datatype BusWrite = BusWrite(addr: U64, length: nat, value: U64) {
    /** What the adapter's assertion demands of its caller. */
    predicate Legal() {
      (length == 4 && addr % 4 == 0) || (length == 8 && addr % 8 == 0)
    }
  }

  type Access = w: BusWrite | w.Legal() witness BusWrite(0, 8, 0)

  /** A write passed through to the role. */
  datatype Post = Post(addr: U64, value: U64)

  datatype Staged = Staged(addr: U64, data: U32)

  const IDLE: Staged := Staged(NO_WRITE, 0)

  predicate InProgress(s: Staged) { s.addr != NO_WRITE }

  predicate IsWhole(w: Access) { w.length == 8 }

  predicate IsLow(w: Access) { w.length == 4 && w.addr % 8 == 0 }

  predicate IsHigh(w: Access) { w.length == 4 && w.addr % 8 == 4 }

  /** `(value << 32) | data`: the 64-bit shift drops the upper half of the value. */
  function Join(high: U64, low: U32): nat {
    Or(Combine(Low32(high), 0), low)
  }

  lemma JoinIsSum(high: U64, low: U32)
    ensures Join(high, low) == Combine(Low32(high), low)
  {
    PowersOfWords();
    OrIsSum(Low32(high) * 0x1_0000_0000, low, 32);
  }

  /** What one write does: the word staged afterwards, the write to the role if any, and the
      number of bytes reported as accepted. */
  datatype Effect = Effect(staged: Staged, post: Option<Post>, accepted: nat)

  function Step(s: Staged, w: Access): Effect {
    if IsWhole(w) then Effect(if InProgress(s) then IDLE else s, Some(Post(w.addr, w.value)), 8)
    else if IsLow(w) then
      if InProgress(s) then Effect(s, None, 0) else Effect(Staged(w.addr, Low32(w.value)), None, 4)
    else if InProgress(s) && w.addr == Add64(s.addr, 4) then
      JoinIsSum(w.value, s.data);
      Effect(IDLE, Some(Post(s.addr, Join(w.value, s.data))), 4)
    else Effect(s, None, 0)
  }

  /** A write is reported with its whole length when it leaves a trace, a word staged or a write to
      the role, and with no bytes when it is rejected and leaves everything as it was. */
  lemma AcceptedIffEffective(s: Staged, w: Access)
    ensures var e := Step(s, w);
            e.accepted == if e.post.Some? || e.staged != s then w.length else 0
  {
    hide Join;
  }

  class Adapter {
    var addr: U64
    var data: U32
    /** The writes the role has received. */
    var posted: seq<Post>

    function State(): Staged
      reads `addr, `data
    {
      Staged(addr, data)
    }

    constructor ()
      ensures State() == IDLE && posted == []
    {
      addr, data, posted := NO_WRITE, 0, [];
    }

    method Reset()
      modifies `addr, `data
      ensures State() == IDLE
    {
      addr, data := NO_WRITE, 0;
    }

    method Write(address: U64, length: nat, value: U64) returns (accepted: nat)
      requires BusWrite(address, length, value).Legal()
      modifies this
      ensures var e := Step(old(State()), BusWrite(address, length, value));
              && State() == e.staged && accepted == e.accepted
              && posted == old(posted) + (if e.post.Some? then [e.post.value] else [])
    {
      var inProgress := addr != NO_WRITE;
      var low, high := address % 8 == 0, address % 8 == 4;
      if !inProgress && length == 4 && low {
        addr, data := address, Low32(value);
        return 4;
      }
      if !inProgress && length == 4 && high {
        return 0;
      }
      if inProgress && length == 4 && low {
        return 0;
      }
      if inProgress && length == 4 && high && address != Add64(addr, 4) {
        return 0;
      }
      var address', value' := address, value;
      if inProgress && length == 8 {
        Reset();
      } else if inProgress && address == Add64(addr, 4) {
        JoinIsSum(value, data);
        value' := Join(value, data);
        address' := addr;
        Reset();
      }
      posted := posted + [Post(address', value')];
      return length;
    }

    /** A read goes straight to the role, whatever is staged; 32-bit reads take their half. */
    method Read(address: U64, length: nat, role: Option<U64>) returns (accepted: nat, value: U64)
      requires BusWrite(address, length, 0).Legal()
      ensures role.None? ==> accepted == 0
      ensures role.Some? ==> accepted == length && value == ReadHalf(address, length, role.value)
      ensures role.Some? ==>
                value == if length == 8 then role.value
                         else if address % 8 == 0 then role.value % 0x1_0000_0000
                         else role.value / 0x1_0000_0000
    {
      if role.None? {
        return 0, 0;
      }
      value := role.value;
      ReadHalfByAddress(address, value);
      CombineHalves(value, 0, High32(value));
      hide Low32, High32, And;
      if length == 8 {
        return 8, value;
      }
      if address % 8 == 4 {
        value := High32(value);
      }
      LowBitsOfWord(value);
      value := And(value, W32 - 1);
      return 4, value;
    }
  }

  lemma LowBitsOfWord(value: U64)
    ensures And(value, W32 - 1) == Low32(value)
  {
    PowersOfWords();
    AndLowMask(value, 32);
  }

  function ReadHalf(address: nat, length: nat, role: U64): U64 {
    if length == 8 then role else if address % 8 == 4 then High32(role) else Low32(role)
  }

  /** What a read returns of the role's register: all of it, its low word or its high word. */
  lemma ReadHalfByAddress(address: nat, role: U64)
    ensures ReadHalf(address, 8, role) == role
    ensures address % 8 == 0 ==> ReadHalf(address, 4, role) == role % 0x1_0000_0000
    ensures address % 8 == 4 ==> ReadHalf(address, 4, role) == role / 0x1_0000_0000
  {
  }

  /** Reading a register in halves and joining them gives the whole register. */
  lemma SplitReadJoins(address: U64, role: U64)
    requires address % 8 == 0
    ensures Join(ReadHalf(address + 4, 4, role), ReadHalf(address, 4, role)) == role == ReadHalf(address, 8, role)
  {
    hide Join, Low32, High32, Combine;
    assert (address + 4) % 8 == 4;
    CombineHalves(role, High32(role), High32(role));
    JoinIsSum(High32(role), Low32(role));
  }

  // ----- Traces of writes

  function End(s: Staged, ws: seq<Access>): Staged
    decreases |ws|
  {
    if ws == [] then s else End(Step(s, ws[0]).staged, ws[1..])
  }

  function Posted(p: Option<Post>): seq<Post> {
    if p.Some? then [p.value] else []
  }

  function Posts(s: Staged, ws: seq<Access>): seq<Post>
    decreases |ws|
  {
    if ws == [] then [] else Posted(Step(s, ws[0]).post) + Posts(Step(s, ws[0]).staged, ws[1..])
  }

  /** The staged address is the idle sentinel or 8-aligned. */
  predicate StagedOk(s: Staged) {
    s == IDLE || s.addr % 8 == 0
  }

  lemma {:induction false} StagedAlongTrace(s: Staged, ws: seq<Access>)
    requires StagedOk(s)
    ensures StagedOk(End(s, ws))
    decreases |ws|
  {
    if ws != [] {
      StagedAlongTrace(Step(s, ws[0]).staged, ws[1..]);
    }
  }

  // ----- Split writes against whole ones

  lemma AlignedBelowTop(addr: U64)
    requires addr % 8 == 0
    ensures addr + 4 < W64 && (addr + 4) % 8 == 4 && (addr + 4) % 4 == 0
  {
    assert addr == 8 * (addr / 8);
  }

  function LowHalf(w: Access): Access
    requires IsWhole(w)
  {
    BusWrite(w.addr, 4, Low32(w.value))
  }

  function HighHalf(w: Access): Access
    requires IsWhole(w)
  {
    AlignedBelowTop(w.addr);
    BusWrite(w.addr + 4, 4, High32(w.value))
  }

  /** No write is in progress, or the one that is happens to be this one's low half. */
  predicate SplitSafe(s: Staged, w: Access) {
    !InProgress(s) || s == Staged(w.addr, Low32(w.value))
  }

  lemma OneStep(s: Staged, w: Access)
    ensures Posts(s, [w]) == Posted(Step(s, w).post)
    ensures End(s, [w]) == Step(s, w).staged
  {
    assert [w][1..] == [];
    assert Posts(s, [w]) == Posted(Step(s, w).post) + [];
  }

  lemma PairSteps(s: Staged, w: Access)
    requires IsWhole(w)
    ensures var mid := Step(s, LowHalf(w));
            var fin := Step(mid.staged, HighHalf(w));
            && Posts(s, [LowHalf(w), HighHalf(w)]) == Posted(mid.post) + Posted(fin.post)
            && End(s, [LowHalf(w), HighHalf(w)]) == fin.staged
  {
    var lo, hi := LowHalf(w), HighHalf(w);
    assert [lo, hi][1..] == [hi] && [hi][1..] == [];
    var mid := Step(s, lo).staged;
    OneStep(mid, hi);
    assert End(s, [lo, hi]) == End(mid, [hi]);
  }

  /** What a pair does: its low half is staged unless a write is in progress, and its high half
      joins whatever is staged for its address. */
  lemma PairOutcome(s: Staged, w: Access)
    requires IsWhole(w) && StagedOk(s)
    ensures var low := if InProgress(s) then s else Staged(w.addr, Low32(w.value));
            var pair := [LowHalf(w), HighHalf(w)];
            if low.addr == w.addr then
              && Posts(s, pair) == [Post(w.addr, Combine(High32(w.value), low.data))] && End(s, pair) == IDLE
            else Posts(s, pair) == [] && End(s, pair) == s
  {
    hide Join, Combine;
    PairSteps(s, w);
    var low := Step(s, LowHalf(w)).staged;
    HighHalfJoins(low, w);
    assert low == if InProgress(s) then s else Staged(w.addr, Low32(w.value));
  }

  lemma HighHalfJoins(low: Staged, w: Access)
    requires IsWhole(w) && low.addr % 8 == 0
    ensures Step(low, HighHalf(w)) ==
            if low.addr == w.addr then Effect(IDLE, Some(Post(w.addr, Combine(High32(w.value), low.data))), 4)
            else Effect(low, None, 0)
  {
    JoinIsSum(High32(w.value), low.data);
    AddPlain(low.addr, 4);
  }

  /** A whole write and its two halves have the same effect exactly when no other write is in
      progress. */
  lemma SplitEqualsWholeIff(s: Staged, w: Access)
    requires IsWhole(w) && StagedOk(s)
    ensures Posts(s, [LowHalf(w), HighHalf(w)]) == Posts(s, [w]) <==> SplitSafe(s, w)
    ensures SplitSafe(s, w) ==> End(s, [LowHalf(w), HighHalf(w)]) == End(s, [w]) == IDLE
  {
    PairOutcome(s, w);
    OneStep(s, w);
    CombineHalves(w.value, High32(w.value), s.data);
  }

  /** The trace with the chosen whole writes replaced by their halves. */
  function Expanded(ws: seq<Access>, split: seq<bool>): seq<Access>
    requires |split| == |ws| && forall k :: 0 <= k < |ws| && split[k] ==> IsWhole(ws[k])
    decreases |ws|
  {
    if ws == [] then []
    else Replaced(ws[0], split[0]) + Expanded(ws[1..], split[1..])
  }

  function Replaced(w: Access, split: bool): seq<Access>
    requires split ==> IsWhole(w)
  {
    if split then [LowHalf(w), HighHalf(w)] else [w]
  }

  lemma ReplacedHasSameEffect(s: Staged, w: Access, split: bool)
    requires StagedOk(s) && (split ==> IsWhole(w) && SplitSafe(s, w))
    ensures Posts(s, Replaced(w, split)) == Posted(Step(s, w).post)
    ensures End(s, Replaced(w, split)) == Step(s, w).staged && StagedOk(Step(s, w).staged)
  {
    OneStep(s, w);
    if split {
      SplitEqualsWholeIff(s, w);
    }
  }

  ghost predicate SplitsSafe(s: Staged, ws: seq<Access>, split: seq<bool>)
    requires |split| == |ws|
    decreases |ws|
  {
    ws == [] || ((split[0] ==> SplitSafe(s, ws[0])) && SplitsSafe(Step(s, ws[0]).staged, ws[1..], split[1..]))
  }

  lemma {:induction false} TraceAppend(s: Staged, front: seq<Access>, back: seq<Access>)
    ensures Posts(s, front + back) == Posts(s, front) + Posts(End(s, front), back)
    ensures End(s, front + back) == End(End(s, front), back)
    decreases |front|
  {
    if front == [] {
      assert front + back == back;
    } else {
      assert (front + back)[1..] == front[1..] + back;
      TraceAppend(Step(s, front[0]).staged, front[1..], back);
    }
  }

  /** In any trace, stray and out-of-sequence writes included, replacing whole writes by adjacent
      low and high halves leaves the writes to the role unchanged as long as no other write is
      in progress where a replacement happens. */
  lemma {:induction false} SplittingPreservesPosts(s: Staged, ws: seq<Access>, split: seq<bool>)
    requires |split| == |ws| && forall k :: 0 <= k < |ws| && split[k] ==> IsWhole(ws[k])
    requires StagedOk(s) && SplitsSafe(s, ws, split)
    ensures Posts(s, Expanded(ws, split)) == Posts(s, ws)
    ensures End(s, Expanded(ws, split)) == End(s, ws)
    decreases |ws|
  {
    if ws != [] {
      var head := Replaced(ws[0], split[0]);
      ReplacedHasSameEffect(s, ws[0], split[0]);
      TraceAppend(s, head, Expanded(ws[1..], split[1..]));
      SplittingPreservesPosts(Step(s, ws[0]).staged, ws[1..], split[1..]);
    }
  }

  /** After every write of the trace the role has received the same from both. */
  ghost predicate SameAllAlong(s: Staged, ws: seq<Access>, split: seq<bool>)
    requires |split| == |ws| && forall k :: 0 <= k < |ws| && split[k] ==> IsWhole(ws[k])
  {
    forall n :: 0 <= n <= |ws| ==> Posts(s, Expanded(ws[..n], split[..n])) == Posts(s, ws[..n])
  }

  /** Replacing whole writes by halves leaves what the role has received at every point of the
      trace unchanged exactly when no other write is in progress at any replacement. */
  lemma SplitsUnnoticedIff(s: Staged, ws: seq<Access>, split: seq<bool>)
    requires |split| == |ws| && forall k :: 0 <= k < |ws| && split[k] ==> IsWhole(ws[k])
    requires StagedOk(s)
    ensures SameAllAlong(s, ws, split) <==> SplitsSafe(s, ws, split)
  {
    if SplitsSafe(s, ws, split) {
      forall n | 0 <= n <= |ws| ensures Posts(s, Expanded(ws[..n], split[..n])) == Posts(s, ws[..n]) {
        SafePrefix(s, ws, split, n);
        SplittingPreservesPosts(s, ws[..n], split[..n]);
      }
    } else {
      var n := NoticedAt(s, ws, split);
    }
  }

  lemma {:induction false} SafePrefix(s: Staged, ws: seq<Access>, split: seq<bool>, n: nat)
    requires |split| == |ws| && n <= |ws| && SplitsSafe(s, ws, split)
    ensures SplitsSafe(s, ws[..n], split[..n])
    decreases n
  {
    hide Step, SplitSafe;
    if n > 0 {
      assert ws[..n][1..] == ws[1..][..n - 1] && split[..n][1..] == split[1..][..n - 1];
      SafePrefix(Step(s, ws[0]).staged, ws[1..], split[1..], n - 1);
    }
  }

  /** A trace of whole writes and its expansion, from states that may differ. */
  ghost predicate BothPost(
    s: Staged, s': Staged, ws: seq<Access>, split: seq<bool>, whole: seq<Post>, halves: seq<Post>)
  {
    && |split| == |ws| && (forall k :: 0 <= k < |ws| && split[k] ==> IsWhole(ws[k]))
    && Posts(s, ws) == whole && Posts(s', Expanded(ws, split)) == halves
  }

  lemma BothPostCons(
    s: Staged, s': Staged, w: Access, b: bool, ws: seq<Access>, split: seq<bool>,
    whole: seq<Post>, halves: seq<Post>)
    requires b ==> IsWhole(w)
    requires BothPost(Step(s, w).staged, End(s', Replaced(w, b)), ws, split, whole, halves)
    ensures BothPost(s, s', [w] + ws, [b] + split,
                     Posted(Step(s, w).post) + whole, Posts(s', Replaced(w, b)) + halves)
  {
    hide Step, Replaced, Posted;
    var all, splits := [w] + ws, [b] + split;
    assert all[1..] == ws && splits[1..] == split;
    assert forall k :: 1 <= k < |all| ==> all[k] == ws[k - 1] && splits[k] == split[k - 1];
    TraceAppend(s', Replaced(w, b), Expanded(ws, split));
  }

  lemma CancelFront<T>(front: seq<T>, x: seq<T>, y: seq<T>)
    requires front + x == front + y
    ensures x == y
  {
    assert (front + x)[|front|..] == x && (front + y)[|front|..] == y;
  }

  /** The writes up to and including the first unsafe replacement: the role can tell. */
  lemma {:induction false} NoticedAt(s: Staged, ws: seq<Access>, split: seq<bool>) returns (n: nat)
    requires |split| == |ws| && forall k :: 0 <= k < |ws| && split[k] ==> IsWhole(ws[k])
    requires StagedOk(s) && !SplitsSafe(s, ws, split)
    ensures n <= |ws| && Posts(s, Expanded(ws[..n], split[..n])) != Posts(s, ws[..n])
    decreases |ws|
  {
    hide Step, SplitSafe, Posts, Expanded;
    if split[0] && !SplitSafe(s, ws[0]) {
      n := 1;
      UnsafeNoticed(s, ws[0]);
      assert ws[..1] == [ws[0]] && split[..1] == [true];
    } else {
      ReplacedHasSameEffect(s, ws[0], split[0]);
      var m := NoticedAt(Step(s, ws[0]).staged, ws[1..], split[1..]);
      n := m + 1;
      NoticedLater(s, ws[0], split[0], ws[1..][..m], split[1..][..m]);
      assert ws[..n] == [ws[0]] + ws[1..][..m] && split[..n] == [split[0]] + split[1..][..m];
    }
  }

  lemma NoticedLater(s: Staged, w: Access, b: bool, rest: seq<Access>, splits: seq<bool>)
    requires |splits| == |rest| && forall k :: 0 <= k < |rest| && splits[k] ==> IsWhole(rest[k])
    requires StagedOk(s) && (b ==> IsWhole(w) && SplitSafe(s, w))
    requires Posts(Step(s, w).staged, Expanded(rest, splits)) != Posts(Step(s, w).staged, rest)
    ensures forall k :: 0 <= k < |[w] + rest| && ([b] + splits)[k] ==> IsWhole(([w] + rest)[k])
    ensures Posts(s, Expanded([w] + rest, [b] + splits)) != Posts(s, [w] + rest)
  {
    hide Step, SplitSafe, Posts, Expanded, Replaced, Posted;
    var next := Step(s, w).staged;
    ReplacedHasSameEffect(s, w, b);
    BothPostCons(s, s, w, b, rest, splits, Posts(next, rest), Posts(next, Expanded(rest, splits)));
    if Posts(s, Expanded([w] + rest, [b] + splits)) == Posts(s, [w] + rest) {
      CancelFront(Posted(Step(s, w).post), Posts(next, Expanded(rest, splits)), Posts(next, rest));
    }
  }

  lemma UnsafeNoticed(s: Staged, w: Access)
    requires IsWhole(w) && StagedOk(s) && !SplitSafe(s, w)
    ensures Posts(s, Expanded([w], [true])) != Posts(s, [w])
  {
    assert [w][1..] == [] && [true][1..] == [];
    assert Expanded([], []) == [] && Replaced(w, true) + [] == Replaced(w, true);
    SplitEqualsWholeIff(s, w);
  }

  lemma BothPostKept(
    s: Staged, s': Staged, w: Access, e: Effect, e': Effect, ws: seq<Access>, split: seq<bool>,
    whole: seq<Post>, halves: seq<Post>)
    requires e == Step(s, w) && e' == Step(s', w) && BothPost(e.staged, e'.staged, ws, split, whole, halves)
    ensures BothPost(s, s', [w] + ws, [false] + split, Posted(e.post) + whole, Posted(e'.post) + halves)
  {
    hide Step, Posted;
    OneStep(s', w);
    BothPostCons(s, s', w, false, ws, split, whole, halves);
  }

  function Whole(addr: U64): Access
    requires addr % 8 == 0
  {
    BusWrite(addr, 8, 0)
  }

  function Half(addr: U64): Access
    requires addr % 4 == 0
  {
    BusWrite(addr, 4, 0)
  }

  lemma BothPostEmpty(s: Staged, s': Staged)
    ensures BothPost(s, s', [], [], [], [])
  {
  }

  /** A staged word at 16 makes one adapter reject the pair for 8 that the other accepts. */
  lemma PairAccepted() returns (ws: seq<Access>, split: seq<bool>)
    ensures BothPost(Staged(16, 0), IDLE, ws, split, [], [Post(8, 0)])
  {
    var s8, s16, p := Staged(8, 0), Staged(16, 0), Post(8, 0);
    JoinIsSum(0, 0);
    hide Join, BothPost;
    BothPostEmpty(s16, IDLE);
    BothPostKept(s16, s8, Half(12), Effect(s16, None, 0), Effect(IDLE, Some(p), 4), [], [], [], []);
    ws, split := [Half(12)] + [], [false] + [];
    assert [p] + [] == [p];
    BothPostKept(s16, IDLE, Half(8), Effect(s16, None, 0), Effect(s8, None, 4), ws, split, [], [p]);
    ws, split := [Half(8)] + ws, [false] + split;
    assert [] + [p] == [p];
  }

  /** The same for a word staged at 0 and the pair for 8. */
  lemma TwoPosted() returns (ws: seq<Access>, split: seq<bool>)
    ensures BothPost(IDLE, Staged(0, 0), ws, split, [], [Post(0, 0), Post(8, 0)])
  {
    var s0, s16, q, p := Staged(0, 0), Staged(16, 0), Post(0, 0), Post(8, 0);
    JoinIsSum(0, 0);
    hide Join, BothPost;
    ws, split := PairAccepted();
    BothPostKept(s16, s0, Half(4), Effect(s16, None, 0), Effect(IDLE, Some(q), 4), ws, split, [], [p]);
    ws, split := [Half(4)] + ws, [false] + split;
    assert [q] + [p] == [q, p];
    BothPostKept(IDLE, s0, Half(16), Effect(s16, None, 4), Effect(s0, None, 0), ws, split, [], [q, p]);
    ws, split := [Half(16)] + ws, [false] + split;
    assert [] + [q, p] == [q, p];
  }

  lemma BothPostSplit(
    s: Staged, s': Staged, w: Access, ws: seq<Access>, split: seq<bool>,
    whole: seq<Post>, halves: seq<Post>)
    requires IsWhole(w) && StagedOk(s) && StagedOk(s') && InProgress(s') && s'.addr != w.addr
    requires BothPost(IDLE, s', ws, split, whole, halves)
    ensures BothPost(s, s', [w] + ws, [true] + split, [Post(w.addr, w.value)] + whole, halves)
  {
    hide BothPost;
    PairOutcome(s', w);
    BothPostCons(s, s', w, true, ws, split, whole, halves);
    assert [] + halves == halves;
  }

  /** The second lost write and the pairs that post what was lost. */
  lemma SecondLost() returns (ws: seq<Access>, split: seq<bool>)
    ensures BothPost(IDLE, IDLE, ws, split, [Post(8, 0)], [Post(0, 0), Post(8, 0)])
  {
    var s0, q, p := Staged(0, 0), Post(0, 0), Post(8, 0);
    hide BothPost;
    ws, split := TwoPosted();
    BothPostSplit(s0, s0, Whole(8), ws, split, [], [q, p]);
    ws, split := [Whole(8)] + ws, [true] + split;
    BothPostKept(IDLE, IDLE, Half(0), Effect(s0, None, 4), Effect(s0, None, 4), ws, split, [p] + [], [q, p]);
    ws, split := [Half(0)] + ws, [false] + split;
    assert [] + ([p] + []) == [p] && [] + [q, p] == [q, p];
  }

  /** Looking at the end of a trace only, two unsafe replacements can make up for each other: the
      two whole writes that the halves lose are posted by later half writes, which the trace of
      whole writes rejects. */
  lemma UnsafeSplitsCanCancel() returns (ws: seq<Access>, split: seq<bool>)
    ensures |split| == |ws| && forall k :: 0 <= k < |ws| && split[k] ==> IsWhole(ws[k])
    ensures !SplitsSafe(IDLE, ws, split) && Posts(IDLE, Expanded(ws, split)) == Posts(IDLE, ws)
  {
    var s8, q, p := Staged(8, 0), Post(0, 0), Post(8, 0);
    var later, kept := SecondLost();
    hide BothPost;
    BothPostKept(IDLE, s8, Whole(0), Effect(IDLE, Some(q), 8), Effect(IDLE, Some(q), 8), later, kept, [p], [q, p]);
    later, kept := [Whole(0)] + later, [false] + kept;
    BothPostSplit(s8, s8, Whole(0), later, kept, [q] + [p], [q] + [q, p]);
    later, kept := [Whole(0)] + later, [true] + kept;
    BothPostKept(IDLE, IDLE, Half(8), Effect(s8, None, 4), Effect(s8, None, 4), later, kept,
                 [q] + ([q] + [p]), [q] + [q, p]);
    ws, split := [Half(8)] + later, [false] + kept;
    assert [] + ([q] + ([q] + [p])) == [q, q, p] == [] + ([q] + [q, p]);
    BothPostEnds(ws, split, [q, q, p]);
    FirstSplitUnsafe(ws, split);
  }

  lemma BothPostEnds(ws: seq<Access>, split: seq<bool>, posts: seq<Post>)
    requires BothPost(IDLE, IDLE, ws, split, posts, posts)
    ensures |split| == |ws| && forall k :: 0 <= k < |ws| && split[k] ==> IsWhole(ws[k])
    ensures Posts(IDLE, Expanded(ws, split)) == Posts(IDLE, ws)
  {
  }

  lemma FirstSplitUnsafe(ws: seq<Access>, split: seq<bool>)
    requires |split| == |ws| > 1 && ws[0] == Half(8) && ws[1] == Whole(0) && !split[0] && split[1]
    ensures !SplitsSafe(IDLE, ws, split)
  {
    assert Step(IDLE, ws[0]).staged == Staged(8, 0);
    assert ws[1..][0] == Whole(0) && split[1..][0];
    assert !SplitsSafe(Staged(8, 0), ws[1..], split[1..]);
  }

  /** A trace of whole writes from an idle adapter may be split anywhere. */
  lemma {:induction false} WholeTraceSplits(ws: seq<Access>, split: seq<bool>)
    requires |split| == |ws| && forall k :: 0 <= k < |ws| ==> IsWhole(ws[k])
    ensures Posts(IDLE, Expanded(ws, split)) == Posts(IDLE, ws)
    ensures SplitsSafe(IDLE, ws, split)
    decreases |ws|
  {
    if ws != [] {
      assert IsWhole(ws[0]);
      WholeTraceSplits(ws[1..], split[1..]);
    }
    SplittingPreservesPosts(IDLE, ws, split);
  }

  // ----- Where the writes to the role come from

  function EffectAt(ws: seq<Access>, k: nat): Effect
    requires k < |ws|
  {
    Step(End(IDLE, ws[..k]), ws[k])
  }

  /** The low word at `j` was accepted and nothing between it and `k` was. */
  ghost predicate LastAccepted(ws: seq<Access>, j: nat, k: nat)
    requires k <= |ws|
  {
    && j < k && IsLow(ws[j]) && EffectAt(ws, j).accepted == 4
    && (forall i :: j < i < k ==> EffectAt(ws, i).accepted == 0)
  }

  lemma EndStep(ws: seq<Access>, k: nat)
    requires k < |ws|
    ensures End(IDLE, ws[..k + 1]) == EffectAt(ws, k).staged
  {
    assert ws[..k + 1] == ws[..k] + [ws[k]];
    TraceAppend(IDLE, ws[..k], [ws[k]]);
    assert [ws[k]][1..] == [];
  }

  /** A staged word is the last accepted low word. */
  lemma {:induction false} StagedOrigin(ws: seq<Access>, k: nat) returns (j: nat)
    requires k <= |ws| && InProgress(End(IDLE, ws[..k]))
    ensures LastAccepted(ws, j, k)
    ensures End(IDLE, ws[..k]) == Staged(ws[j].addr, Low32(ws[j].value))
    decreases k
  {
    if k == 0 {
      assert false;
    } else {
      EndStep(ws, k - 1);
      if EffectAt(ws, k - 1).accepted == 4 && IsLow(ws[k - 1]) {
        j := k - 1;
      } else {
        j := StagedOrigin(ws, k - 1);
      }
    }
  }

  ghost predicate JoinsHalves(ws: seq<Access>, j: nat, k: nat, p: Post)
    requires k < |ws|
  {
    && LastAccepted(ws, j, k) && IsHigh(ws[k]) && ws[k].addr == ws[j].addr + 4
    && p == Post(ws[j].addr, Combine(Low32(ws[k].value), Low32(ws[j].value)))
  }

  /** A half write that reaches the role is the high word above the staged one. */
  lemma HalfPosts(s: Staged, w: Access)
    requires !IsWhole(w) && Step(s, w).post.Some? && s.addr % 8 == 0
    ensures IsHigh(w) && w.addr == s.addr + 4
    ensures Step(s, w).post.value == Post(s.addr, Combine(Low32(w.value), s.data))
  {
    hide Join;
    AlignedBelowTop(s.addr);
    AddPlain(s.addr, 4);
    JoinIsSum(w.value, s.data);
  }

  /** Every write to the role is a 64-bit write as issued, or joins a high word with the last
      accepted low word, which lies just below it. */
  lemma PostOrigin(ws: seq<Access>, k: nat)
    requires k < |ws| && EffectAt(ws, k).post.Some?
    ensures var p := EffectAt(ws, k).post.value;
            if IsWhole(ws[k]) then p == Post(ws[k].addr, ws[k].value)
            else exists j :: JoinsHalves(ws, j, k, p)
  {
    if !IsWhole(ws[k]) {
      assert InProgress(End(IDLE, ws[..k]));
      hide Step, Combine, Low32, End;
      var j := StagedOrigin(ws, k);
      HalfPosts(End(IDLE, ws[..k]), ws[k]);
      assert JoinsHalves(ws, j, k, EffectAt(ws, k).post.value);
    }
  }
}
