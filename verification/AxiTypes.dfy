/** Data model of the AXI4 RAM: bus payloads, memory, and the reference reading of a burst
    as a list of beats. The geometry is the fixed one of the source: 32-bit data, 8-bit
    addresses, 4 strobes, 8-bit IDs, hence 64 words of 4 byte lanes. */
module AxiTypes {
  import opened Basics
  import Bits

  type Word = w: seq<Byte> | |w| == 4 witness [0, 0, 0, 0]
  type Strobe = s: seq<bool> | |s| == 4 witness [false, false, false, false]
  type WordIndex = x: int | 0 <= x < 64
  type SizeCode = x: int | 0 <= x < 8
  type BurstKind = x: int | 0 <= x < 4
  const ZERO_WORD: Word := [0, 0, 0, 0]
  type Memory = m: seq<Word> | |m| == 64 witness seq<Word>(64, _ => ZERO_WORD)

  const FIXED: BurstKind := 0
  const WRAP: BurstKind := 2

  /** An address-channel payload (AW or AR): `len` is one less than the number of beats. */
  datatype Burst = Burst(id: Byte, addr: Byte, len: Byte, size: SizeCode, kind: BurstKind)

  datatype WBeat = WBeat(data: Word, strb: Strobe)
  datatype RBeat = RBeat(id: Byte, data: Word, last: bool)

  /** What one beat of a burst is about, before any data is looked at. */
  datatype Beat = Beat(id: Byte, word: WordIndex, last: bool)

  /** The inputs sampled at one rising clock edge. The lock, cache, prot and wlast inputs are
      not read by the RAM. */
  datatype Inputs = Inputs(
    rstN: bool,
    aw: Burst, awvalid: bool,
    w: WBeat, wvalid: bool,
    bready: bool,
    ar: Burst, arvalid: bool,
    rready: bool)

  /** The size code the RAM keeps: never wider than the 4-byte bus. */
  function ClippedSize(size: SizeCode): SizeCode {
    if size < 2 then size else 2
  }

  function NumberBytes(size: SizeCode): nat {
    if size == 0 then 1 else if size == 1 then 2 else 4
  }

  /** Address of beat `n` (from 0) as section A3.4.1 of the AMBA AXI specification (IHI 0022)
      gives it for FIXED and INCR bursts: the first beat at the start address, every later
      INCR beat at the aligned start address plus `n` times the transfer size. The RAM steps
      every other kind like INCR, and so does this reference; `AxiWrap` has the WRAP addresses. */
  function BeatAddress(b: Burst, n: nat): nat {
    var bytes := NumberBytes(ClippedSize(b.size));
    if b.kind == FIXED || n == 0 then b.addr else b.addr / bytes * bytes + n * bytes
  }

  /** The memory word of beat `n`, in the 256-byte space of the RAM. */
  function BeatWord(b: Burst, n: nat): WordIndex {
    BeatAddress(b, n) / 4 % 64
  }

  function BurstBeats(b: Burst): seq<Beat> {
    seq(b.len + 1, n requires 0 <= n => Beat(b.id, BeatWord(b, n), n == b.len))
  }

  /** A beat has two to the power of the size code bytes, never more than the bus is wide. */
  lemma BytesPerBeat(size: SizeCode)
    ensures NumberBytes(ClippedSize(size)) == Bits.Pow2(if size < 2 then size else 2)
    ensures NumberBytes(ClippedSize(size)) == Bits.Pow2(ClippedSize(size)) <= 4
  {
    assert Bits.Pow2(0) == 1 && Bits.Pow2(1) == 2 && Bits.Pow2(2) == 4;
  }

  /** The word each beat goes to, by the codes of the bus: kind 0 stays at the first word; the
      other kinds go on by a byte (size 0), half a word (size 1) or a word (sizes above), from
      the aligned start. */
  lemma BeatWordByCodes(b: Burst, n: nat)
    ensures b.kind == 0 ==> BeatWord(b, n) == b.addr / 4
    ensures b.kind != 0 && b.size == 0 ==> BeatWord(b, n) == (b.addr + n) / 4 % 64
    ensures b.kind != 0 && b.size == 1 ==> BeatWord(b, n) == (b.addr / 2 + n) / 2 % 64
    ensures b.kind != 0 && b.size >= 2 ==> BeatWord(b, n) == (b.addr / 4 + n) % 64
  {
    if b.kind != 0 && b.size == 1 {
      assert b.addr / 2 * 2 + n * 2 == 2 * (b.addr / 2 + n);
      SameWordHalf(b.addr, n);
      assert (b.addr / 2 * 2 + n * 2) / 4 == (b.addr / 2 + n) / 2;
    } else if b.kind != 0 && b.size >= 2 {
      assert (b.addr / 4 * 4 + n * 4) / 4 == b.addr / 4 + n;
    }
  }

  /** A burst has one beat more than its length code, all with its ID, and ends with the last. */
  lemma BurstBeatsByCodes(b: Burst, n: nat)
    requires n < |BurstBeats(b)|
    ensures |BurstBeats(b)| == b.len + 1 && BurstBeats(b)[n].id == b.id
    ensures BurstBeats(b)[n].last <==> n + 1 == |BurstBeats(b)|
  {
  }

  /** The beats of a list of accepted bursts, in order. */
  function Beats(bursts: seq<Burst>): seq<Beat> {
    if bursts == [] then []
    else Beats(bursts[..|bursts| - 1]) + BurstBeats(bursts[|bursts| - 1])
  }

  lemma BeatsAppend(bursts: seq<Burst>, b: Burst)
    ensures Beats(bursts + [b]) == Beats(bursts) + BurstBeats(b)
  {
    assert (bursts + [b])[..|bursts|] == bursts;
  }

  function Merge(was: Word, b: WBeat): Word {
    [if b.strb[0] then b.data[0] else was[0],
     if b.strb[1] then b.data[1] else was[1],
     if b.strb[2] then b.data[2] else was[2],
     if b.strb[3] then b.data[3] else was[3]]
  }

  /** The reference memory: `base` with the write beats `ws` applied in order, each to the
      word of the beat in the same position, only on its strobed lanes. */
  function Replay(base: Memory, beats: seq<Beat>, ws: seq<WBeat>): Memory
    requires |ws| <= |beats|
  {
    if ws == [] then base
    else
      var n := |ws| - 1;
      var m := Replay(base, beats, ws[..n]);
      m[beats[n].word := Merge(m[beats[n].word], ws[n])]
  }

  /** Later beats do not matter to what has already been replayed. */
  lemma {:induction false} ReplayPrefix(base: Memory, beats: seq<Beat>, more: seq<Beat>, ws: seq<WBeat>)
    requires |ws| <= |beats|
    ensures Replay(base, beats + more, ws) == Replay(base, beats, ws)
    decreases |ws|
  {
    if ws != [] {
      ReplayPrefix(base, beats, more, ws[..|ws| - 1]);
    }
  }

  ghost predicate WritesLane(beats: seq<Beat>, ws: seq<WBeat>, k: nat, word: WordIndex, lane: nat)
    requires |ws| <= |beats| && lane < 4
  {
    k < |ws| && beats[k].word == word && ws[k].strb[lane]
  }

  /** A byte that no beat strobes keeps its base value. */
  lemma {:induction false} ReplayUntouched(base: Memory, beats: seq<Beat>, ws: seq<WBeat>, word: WordIndex, lane: nat)
    requires |ws| <= |beats| && lane < 4
    requires forall k: nat :: !WritesLane(beats, ws, k, word, lane)
    ensures Replay(base, beats, ws)[word][lane] == base[word][lane]
    decreases |ws|
  {
    if ws != [] {
      var n := |ws| - 1;
      assert !WritesLane(beats, ws, n, word, lane);
      forall k: nat ensures !WritesLane(beats, ws[..n], k, word, lane) {
        assert !WritesLane(beats, ws, k, word, lane);
      }
      ReplayUntouched(base, beats, ws[..n], word, lane);
    }
  }

  /** A byte holds what the last beat that strobes it wrote. */
  lemma {:induction false} ReplayLastWriterWins(
    base: Memory, beats: seq<Beat>, ws: seq<WBeat>, word: WordIndex, lane: nat, k: nat)
    requires |ws| <= |beats| && lane < 4
    requires WritesLane(beats, ws, k, word, lane)
    requires forall j: nat | k < j :: !WritesLane(beats, ws, j, word, lane)
    ensures Replay(base, beats, ws)[word][lane] == ws[k].data[lane]
    decreases |ws|
  {
    var n := |ws| - 1;
    if k < n {
      assert !WritesLane(beats, ws, n, word, lane);
      forall j: nat | k < j ensures !WritesLane(beats, ws[..n], j, word, lane) {
        assert !WritesLane(beats, ws, j, word, lane);
      }
      ReplayLastWriterWins(base, beats, ws[..n], word, lane, k);
    }
  }

  /** The address the RAM's register holds before beat `n`: it adds the transfer size to the
      unaligned start address, in 8 bits. */
  function SteppedAddress(b: Burst, n: nat): Byte {
    if b.kind == FIXED then b.addr else (b.addr + n * NumberBytes(ClippedSize(b.size))) % 256
  }

  lemma WrapOnce(x: nat, d: nat)
    ensures (x + d) % 256 == (x % 256 + d) % 256
  {
  }

  lemma SteppedAddressNext(b: Burst, n: nat)
    ensures b.kind != FIXED ==>
              SteppedAddress(b, n + 1) == (SteppedAddress(b, n) + NumberBytes(ClippedSize(b.size))) % 256
  {
    hide NumberBytes, ClippedSize;
    var bytes := NumberBytes(ClippedSize(b.size));
    assert b.addr + (n + 1) * bytes == b.addr + n * bytes + bytes;
    WrapOnce(b.addr + n * bytes, bytes);
  }

  lemma SteppedAddressFirst(b: Burst)
    ensures SteppedAddress(b, 0) == b.addr
  {
  }

  /** The un-aligned increment and the aligned formula of section A3.4.1 hit the same word at
      every beat, for unaligned starts and narrow sizes too. */
  lemma SteppedAddressHitsStandardWord(b: Burst, n: nat)
    ensures SteppedAddress(b, n) / 4 == BeatWord(b, n)
  {
    if b.kind == FIXED || n == 0 {
      SteppedAddressFirst(b);
      WordInRange(b.addr);
    } else {
      SteppedWord(b.addr, n, NumberBytes(ClippedSize(b.size)));
    }
  }

  lemma WordInRange(a: Byte)
    ensures a / 4 % 64 == a / 4
  {
  }

  lemma SteppedWord(a: nat, n: nat, bytes: nat)
    requires bytes in {1, 2, 4}
    ensures (a + n * bytes) % 256 / 4 == (a / bytes * bytes + n * bytes) / 4 % 64
  {
    WordOfWrapped(a + n * bytes);
    AlignedWord(a, n, bytes);
  }

  lemma AlignedWord(a: nat, n: nat, bytes: nat)
    requires bytes in {1, 2, 4}
    ensures (a + n * bytes) / 4 == (a / bytes * bytes + n * bytes) / 4
  {
    if bytes == 2 {
      SameWordHalf(a, n);
    } else if bytes == 4 {
      SameWordFull(a, n);
    }
  }

  lemma WordOfWrapped(x: nat)
    ensures x % 256 / 4 == x / 4 % 64
  {
    var w := x / 4;
    assert w == 64 * (w / 64) + w % 64;
    assert x % 256 == 4 * (w % 64) + x % 4;
  }

  lemma SameWordHalf(a: nat, n: nat)
    ensures (a + n * 2) / 4 == (a / 2 * 2 + n * 2) / 4
  {
  }

  lemma SameWordFull(a: nat, n: nat)
    ensures (a + n * 4) / 4 == (a / 4 * 4 + n * 4) / 4
  {
  }
}
