/** The demo DMA: a copy in bursts of up to 32 bytes through a buffer, compared with memmove. */
module DemoDma {
  import opened Basics
  import opened Bits

  const BUF: nat := 32

  /** The bytes of `[src, src + n)` written to `[dst, dst + n)`, all read before any is written. */
  function Memmove(mem: seq<Byte>, dst: nat, src: nat, n: nat): (r: seq<Byte>)
    requires dst + n <= |mem| && src + n <= |mem|
    ensures |r| == |mem|
    ensures forall k :: 0 <= k < |mem| ==> r[k] == mem[if dst <= k < dst + n then src + (k - dst) else k]
  {
    mem[..dst] + mem[src..src + n] + mem[dst + n..]
  }

  function BurstLength(len: nat): nat {
    if len > BUF then BUF else len
  }

  /** The copy burst by burst. */
  function Chunked(mem: seq<Byte>, dst: nat, src: nat, len: nat): seq<Byte>
    requires dst + len <= |mem| && src + len <= |mem|
    decreases len
  {
    if len == 0 then mem
    else
      var n := BurstLength(len);
      Chunked(Memmove(mem, dst, src, n), dst + n, src + n, len - n)
  }

  function BurstCount(len: nat): nat { (len + 31) / 32 }

  class Dma {
    var dst: U32
    var src: U32
    var len: U32
    var run: bool
    var done: bool
    /** Read and write bursts completed. */
    var bursts: nat
    /** The memory behind the initiator socket. */
    const mem: array<Byte>

    constructor (mem: array<Byte>)
      ensures this.mem == mem && dst == 0 && src == 0 && len == 0 && !run && !done && bursts == 0
    {
      this.mem := mem;
      dst, src, len, run, done, bursts := 0, 0, 0, false, false, 0;
    }

    /** A read of `n` bytes into the buffer, then a write of the buffer. */
    method Transfer(n: nat)
      requires dst + n <= mem.Length && src + n <= mem.Length
      modifies mem, `bursts
      ensures mem[..] == Memmove(old(mem[..]), dst, src, n)
      ensures bursts == old(bursts) + 1
    {
      var buf := mem[src..src + n];
      ghost var before := mem[..];
      WriteBuffer(buf);
      assert mem[..] == Memmove(before, dst, src, n);
      bursts := bursts + 1;
    }

    method WriteBuffer(buf: seq<Byte>)
      requires dst + |buf| <= mem.Length
      modifies mem
      ensures mem[..] == old(mem[..])[..dst] + buf + old(mem[..])[dst + |buf|..]
    {
      var i := 0;
      while i < |buf|
        invariant 0 <= i <= |buf|
        invariant forall k :: dst <= k < dst + i ==> mem[k] == buf[k - dst]
        invariant forall k :: 0 <= k < mem.Length && !(dst <= k < dst + i) ==> mem[k] == old(mem[k])
      {
        mem[dst + i] := buf[i];
        i := i + 1;
      }
    }

    /** One pass of the thread's loop with RUN set. */
    method Iterate()
      requires run && dst + len <= mem.Length && src + len <= mem.Length && mem.Length < W32
      modifies this, mem
      ensures var n := BurstLength(old(len));
              && mem[..] == Memmove(old(mem[..]), old(dst), old(src), n)
              && dst == old(dst) + n && src == old(src) + n && len == old(len) - n
      ensures bursts == old(bursts) + (if old(len) > 0 then 1 else 0)
      ensures run <==> len > 0
      ensures done == if run then old(done) else true
    {
      if len > 0 && run {
        var tlen := if len > BUF then BUF else len;
        Transfer(tlen);
        dst, src, len := dst + tlen, src + tlen, len - tlen;
      } else {
        assert mem[..] == Memmove(mem[..], dst, src, 0);
      }
      if len == 0 && run {
        run := false;
        done := true;
      }
    }

    /** The copy thread from a start with RUN set until it clears RUN: DONE is raised only after
        the last burst. */
    method DoDmaCopy()
      requires run && dst + len <= mem.Length && src + len <= mem.Length && mem.Length < W32
      modifies this, mem
      ensures !run && done && len == 0
      ensures mem[..] == Chunked(old(mem[..]), old(dst), old(src), old(len))
      ensures dst == old(dst) + old(len) && src == old(src) + old(len)
      ensures bursts == old(bursts) + BurstCount(old(len))
    {
      ghost var result, total := Chunked(mem[..], dst, src, len), bursts + BurstCount(len);
      while run
        invariant dst + len == old(dst) + old(len) && src + len == old(src) + old(len)
        invariant dst + len <= mem.Length && src + len <= mem.Length
        invariant result == Chunked(mem[..], dst, src, len)
        invariant total == bursts + BurstCount(len)
        invariant !run ==> done && len == 0
        decreases run, len
      {
        IterateOnce();
      }
    }

    /** A pass as one step of the whole copy. */
    method IterateOnce()
      requires run && dst + len <= mem.Length && src + len <= mem.Length && mem.Length < W32
      modifies this, mem
      ensures dst + len == old(dst) + old(len) && src + len == old(src) + old(len)
      ensures dst + len <= mem.Length && src + len <= mem.Length
      ensures Chunked(mem[..], dst, src, len) == old(Chunked(mem[..], dst, src, len))
      ensures bursts + BurstCount(len) == old(bursts) + BurstCount(old(len))
      ensures if run then len < old(len) else done && len == 0
    {
      ghost var m, d, s, l := mem[..], dst, src, len;
      Iterate();
      OneBurst(l);
      BurstUnfolds(m, d, s, l);
    }
  }

  lemma BurstUnfolds(mem: seq<Byte>, dst: nat, src: nat, len: nat)
    requires dst + len <= |mem| && src + len <= |mem|
    ensures var n := BurstLength(len);
            Chunked(mem, dst, src, len) == Chunked(Memmove(mem, dst, src, n), dst + n, src + n, len - n)
  {
    if len == 0 {
      assert Memmove(mem, dst, src, 0) == mem;
    }
  }

  lemma OneBurst(len: nat)
    ensures BurstCount(len) == (if len > 0 then 1 else 0) + BurstCount(len - BurstLength(len))
  {
  }

  // ----- When it is a memmove

  predicate CopySafe(dst: nat, src: nat, len: nat) {
    dst <= src || src + len <= dst || len <= BUF
  }

  /** A burst followed by a memmove of the rest is one memmove when the burst does not overwrite
      what is still to be read. */
  lemma BurstThenRest(mem: seq<Byte>, dst: nat, src: nat, len: nat)
    requires dst + len <= |mem| && src + len <= |mem| && len > BUF
    requires dst <= src || src + len <= dst
    ensures Memmove(Memmove(mem, dst, src, BUF), dst + BUF, src + BUF, len - BUF) == Memmove(mem, dst, src, len)
  {
    var first := Memmove(mem, dst, src, BUF);
    var front, back := mem[src..src + BUF], mem[src + BUF..src + len];
    assert first[src + BUF..src + len] == back;
    assert first[..dst + BUF] == mem[..dst] + front;
    assert first[dst + len..] == mem[dst + len..];
    assert front + back == mem[src..src + len];
    assert mem[..dst] + front + back == mem[..dst] + (front + back);
  }

  lemma {:induction false} SafeCopyIsMemmove(mem: seq<Byte>, dst: nat, src: nat, len: nat)
    requires dst + len <= |mem| && src + len <= |mem| && CopySafe(dst, src, len)
    ensures Chunked(mem, dst, src, len) == Memmove(mem, dst, src, len)
    decreases len
  {
    if len == 0 {
      assert Memmove(mem, dst, src, 0) == mem;
    } else if len <= BUF {
      assert Chunked(mem, dst, src, len) == Chunked(Memmove(mem, dst, src, len), dst + len, src + len, 0);
    } else {
      BurstThenRest(mem, dst, src, len);
      SafeCopyIsMemmove(Memmove(mem, dst, src, BUF), dst + BUF, src + BUF, len - BUF);
    }
  }

  predicate AllZero(mem: seq<Byte>) {
    forall k :: 0 <= k < |mem| ==> mem[k] == 0
  }

  lemma {:induction false} ZeroStaysZero(mem: seq<Byte>, dst: nat, src: nat, len: nat)
    requires dst + len <= |mem| && src + len <= |mem| && AllZero(mem)
    ensures AllZero(Chunked(mem, dst, src, len)) && |Chunked(mem, dst, src, len)| == |mem|
    decreases len
  {
    if len > 0 {
      var n := BurstLength(len);
      ZeroStaysZero(Memmove(mem, dst, src, n), dst + n, src + n, len - n);
    }
  }

  /** A memory with one non-zero byte. */
  function Spike(size: nat, at: nat): seq<Byte> {
    seq<Byte>(size, k => if k == at then 1 else 0)
  }

  /** The first burst overwrites the byte before it was read. */
  lemma SpikeErased(size: nat, dst: nat, src: nat, j: nat)
    requires dst + BUF <= size && src + j < size && src < dst <= src + j < dst + BUF && BUF <= j
    ensures AllZero(Memmove(Spike(size, src + j), dst, src, BUF))
  {
  }

  lemma SpikeMoves(size: nat, dst: nat, src: nat, len: nat, j: nat)
    requires dst + len <= size && src + len <= size && j < len
    ensures Memmove(Spike(size, src + j), dst, src, len)[dst + j] == 1
  {
  }

  /** A memory on which an unsafe copy goes wrong: its one non-zero byte is overwritten by the
      first burst before it is read. */
  lemma UnsafeCopyDiffers(size: nat, dst: nat, src: nat, len: nat) returns (mem: seq<Byte>)
    requires dst + len <= size && src + len <= size && !CopySafe(dst, src, len)
    ensures |mem| == size && Chunked(mem, dst, src, len) != Memmove(mem, dst, src, len)
  {
    var j := if dst - src > BUF then dst - src else BUF;
    mem := Spike(size, src + j);
    hide Memmove, Spike;
    SpikeErased(size, dst, src, j);
    ZeroStaysZero(Memmove(mem, dst, src, BUF), dst + BUF, src + BUF, len - BUF);
    SpikeMoves(size, dst, src, len, j);
    assert Chunked(mem, dst, src, len)[dst + j] == 0;
  }

  ghost predicate CopiesLikeMemmove(size: nat, dst: nat, src: nat, len: nat)
    requires dst + len <= size && src + len <= size
  {
    forall mem: seq<Byte> | |mem| == size :: Chunked(mem, dst, src, len) == Memmove(mem, dst, src, len)
  }

  /** The chunked copy leaves every memory as memmove would exactly when the destination does not
      lie inside the source range behind its start, or one burst does it all. */
  lemma CopiesLikeMemmoveIff(size: nat, dst: nat, src: nat, len: nat)
    requires dst + len <= size && src + len <= size
    ensures CopiesLikeMemmove(size, dst, src, len) <==> CopySafe(dst, src, len)
  {
    if CopySafe(dst, src, len) {
      forall mem: seq<Byte> | |mem| == size
        ensures Chunked(mem, dst, src, len) == Memmove(mem, dst, src, len)
      {
        SafeCopyIsMemmove(mem, dst, src, len);
      }
    } else {
      var mem := UnsafeCopyDiffers(size, dst, src, len);
    }
  }
}
