/** The RAM steps WRAP bursts like INCR ones. This says for which WRAP bursts the words it
    touches are nevertheless the ones section A3.4.1 of IHI 0022 asks for. */
module AxiWrap {
  import opened Arith
  import opened Basics
  import Bits
  import opened AxiTypes

  function Bytes(b: Burst): nat {
    NumberBytes(ClippedSize(b.size))
  }

  function WrapSpan(b: Burst): nat {
    Bytes(b) * (b.len + 1)
  }

  /** A WRAP burst the specification allows: 2, 4, 8 or 16 beats from an aligned start. */
  predicate LegalWrap(b: Burst) {
    b.kind == WRAP && b.size <= 2 && b.len in {1, 3, 7, 15} && b.addr % Bytes(b) == 0
  }

  /** Wrapping address of beat `n`: back to the lower boundary once the span is exhausted. */
  function WrapAddress(b: Burst, n: nat): int {
    var next := b.addr + n * Bytes(b);
    var top := b.addr / WrapSpan(b) * WrapSpan(b) + WrapSpan(b);
    if next >= top then next - WrapSpan(b) else next
  }

  ghost predicate WrapServed(b: Burst) {
    forall n :: 0 <= n <= b.len ==> BeatWord(b, n) == WrapAddress(b, n) / 4 % 64
  }

  /** The beat at which a burst that does not start on its boundary wraps. */
  lemma WrappingBeat(a: nat, bytes: nat, beats: nat) returns (n: nat)
    requires bytes > 0 && beats > 0
    requires a % bytes == 0 && a % (bytes * beats) != 0
    ensures 1 <= n < beats && a + n * bytes == a / (bytes * beats) * (bytes * beats) + bytes * beats
  {
    var u := a / bytes;
    n := beats - u % beats;
    SplitSpan(u, bytes, beats);
    assert a == bytes * u;
    assert n * bytes == bytes * beats - bytes * (u % beats);
  }

  lemma SplitSpan(u: nat, bytes: nat, beats: nat)
    requires bytes > 0 && beats > 0
    ensures bytes * u / (bytes * beats) == u / beats
    ensures bytes * u % (bytes * beats) == bytes * (u % beats)
    ensures bytes * u == u / beats * (bytes * beats) + bytes * (u % beats)
  {
    var q, r := u / beats, u % beats;
    assert u == beats * q + r;
    assert bytes * u == bytes * beats * q + bytes * r;
    MulGap(bytes, r, beats);
    DivModUnique(bytes * u, bytes * beats, q, bytes * r);
  }

  lemma AlignedStartNeverWraps(b: Burst, n: nat)
    requires LegalWrap(b) && b.addr % WrapSpan(b) == 0 && n <= b.len
    ensures WrapAddress(b, n) == BeatAddress(b, n)
  {
    var bytes := Bytes(b);
    assert bytes > 0;
    hide NumberBytes, ClippedSize;
    assert n * bytes < (b.len + 1) * bytes;
    assert b.addr / bytes * bytes == b.addr;
    assert b.addr / WrapSpan(b) * WrapSpan(b) == b.addr;
  }

  lemma WrapTargets(b: Burst, n: nat)
    requires LegalWrap(b) && 1 <= n <= b.len
    requires b.addr + n * Bytes(b) == b.addr / WrapSpan(b) * WrapSpan(b) + WrapSpan(b)
    ensures WrapAddress(b, n) == b.addr / WrapSpan(b) * WrapSpan(b)
    ensures BeatAddress(b, n) == b.addr / WrapSpan(b) * WrapSpan(b) + WrapSpan(b)
  {
    assert b.addr / Bytes(b) * Bytes(b) == b.addr;
  }

  lemma SpanIsPowerOfTwo(b: Burst)
    requires LegalWrap(b)
    ensures WrapSpan(b) in {2, 4, 8, 16, 32, 64}
  {
  }

  lemma WordsApart(word: nat, d: nat)
    requires word < 64 && 0 < d < 64
    ensures (4 * word + 4 * d) / 4 % 64 != 4 * word / 4 % 64
  {
  }

  lemma NeighbouringWords(a: Byte)
    requires a % 2 == 1
    ensures (a / 2 * 2 + 2) / 4 % 64 == a / 2 * 2 / 4 % 64 <==> a % 4 == 1
  {
    if a % 4 == 1 {
      assert a / 2 * 2 == 4 * (a / 4);
    } else {
      assert a / 2 * 2 == 4 * (a / 4) + 2;
      WordsApart(a / 4, 1);
    }
  }

  lemma SpanStart(a: Byte, span: nat)
    requires span in {4, 8, 16, 32, 64}
    ensures a / span * span <= a && a / span * span % 4 == 0
  {
  }

  /** The two ends of a span share a memory word only for a two-byte span inside one. */
  lemma SpanLeavesWord(a: Byte, span: nat)
    requires span in {2, 4, 8, 16, 32, 64} && a % span != 0
    ensures (a / span * span + span) / 4 % 64 == a / span * span / 4 % 64 <==> span == 2 && a % 4 == 1
  {
    if span == 2 {
      NeighbouringWords(a);
    } else {
      var low := a / span * span;
      SpanStart(a, span);
      WordsApart(low / 4, span / 4);
      assert low == 4 * (low / 4) && span == 4 * (span / 4);
    }
  }

  /** The wrapping beat and the one the RAM serves instead are in different words but for that case. */
  lemma WrapMisses(b: Burst, n: nat)
    requires LegalWrap(b) && 1 <= n <= b.len
    requires b.addr + n * Bytes(b) == b.addr / WrapSpan(b) * WrapSpan(b) + WrapSpan(b)
    requires b.addr % WrapSpan(b) != 0
    ensures BeatWord(b, n) == WrapAddress(b, n) / 4 % 64 <==> WrapSpan(b) == 2 && b.addr % 4 == 1
  {
    hide LegalWrap, Bytes, WrapSpan, WrapAddress, BeatAddress;
    WrapTargets(b, n);
    SpanIsPowerOfTwo(b);
    SpanLeavesWord(b.addr, WrapSpan(b));
  }

  /** The wrapping address is the one in the aligned block of the burst's total size that holds the
      start address, a whole number of such blocks away from where stepping without wrap leads. */
  lemma WrapAddressIsInBlock(b: Burst, n: nat)
    requires LegalWrap(b) && n <= b.len
    ensures var span := WrapSpan(b);
            && b.addr / span * span <= WrapAddress(b, n) < b.addr / span * span + span
            && (WrapAddress(b, n) == b.addr + n * Bytes(b) || WrapAddress(b, n) == b.addr + n * Bytes(b) - span)
  {
    var bytes := Bytes(b);
    assert bytes > 0;
    hide Bytes, LegalWrap;
    assert n * bytes < (b.len + 1) * bytes;
    assert b.addr == WrapSpan(b) * (b.addr / WrapSpan(b)) + b.addr % WrapSpan(b);
  }

  /** A legal WRAP burst is served as specified exactly when it starts on its wrap boundary, or
      is the two-byte burst 1, 0 inside one word. */
  lemma WrapServedIff(b: Burst)
    requires LegalWrap(b)
    ensures WrapServed(b) <==> b.addr % WrapSpan(b) == 0 || (WrapSpan(b) == 2 && b.addr % 4 == 1)
  {
    if b.addr % WrapSpan(b) == 0 {
      forall n | 0 <= n <= b.len ensures BeatWord(b, n) == WrapAddress(b, n) / 4 % 64 {
        AlignedStartNeverWraps(b, n);
      }
    } else {
      var n := WrappingBeat(b.addr, Bytes(b), b.len + 1);
      WrapMisses(b, n);
      if WrapSpan(b) == 2 {
        assert BeatWord(b, 0) == WrapAddress(b, 0) / 4 % 64;
      }
    }
  }

  /** By the codes of the bus, for kind 2 with two to the power of `size` bytes a beat. */
  lemma WrapServedByCodes(b: Burst)
    requires b.kind == 2 && b.size <= 2 && b.len in {1, 3, 7, 15} && b.addr % Bits.Pow2(b.size) == 0
    ensures WrapServed(b) <==>
            b.addr % (Bits.Pow2(b.size) * (b.len + 1)) == 0 || (b.size == 0 && b.len == 1 && b.addr % 4 == 1)
  {
    BytesPerBeat(b.size);
    assert Bits.Pow2(0) == 1 && Bits.Pow2(1) == 2 && Bits.Pow2(2) == 4;
    WrapServedIff(b);
    hide WrapServed;
  }
}
