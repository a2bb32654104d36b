/** The command buffer of the graphics chip: local buffering, the register interpreter, and the
    ring that the chip reads. */
module Glamo {
  import opened Common
  import opened GlamoWords

  datatype Mode = Mmio | Cmdq

  // GLAMO_REG_CMDQ_WRITE_ADDRH and GLAMO_REG_CMDQ_WRITE_ADDRL
  const WRITE_ADDRH: word := 0x1608
  const WRITE_ADDRL: word := 0x1606

  function AddrH(w: nat): word { w / 0x8000 % 8 }

  function AddrL(w: nat): word { w * 2 % 0x1_0000 }

  /** The two registers hold the byte address of the write pointer. */
  lemma WriteAddress(w: nat)
    requires w < 0x4_0000
    ensures AddrH(w) * 0x1_0000 + AddrL(w) == 2 * w
  {
  }

  // struct glamo_dma_manager; lengths in bytes, of words of two bytes
  class Manager {
    const mode: Mode
    const lbuf: array<word>
    const lsize: nat
    var llen: nat
    const cmdq: array<word>
    const size: nat
    var r: int
    var w: nat
    // every register write so far, and every word that went into the ring
    var writes: seq<Write>
    ghost var ring: seq<word>

    ghost predicate Valid()
      reads this, cmdq
    {
      && lbuf.Length * 2 == lsize && llen % 2 == 0 && llen <= lsize && lbuf != cmdq
      && cmdq.Length >= size / 2 > 0 && w <= size / 2
      && RingHolds()
    }

    // the last words that fit are in the ring, word k in slot k modulo its size; the write
    // pointer is just behind the last one, between 1 and the size, once there is one
    ghost predicate RingHolds()
      requires cmdq.Length >= size / 2 > 0
      reads this, cmdq
    {
      && w == (if ring == [] then 0 else (|ring| - 1) % (size / 2) + 1)
      && forall k :: 0 <= k < |ring| && k >= |ring| - size / 2 ==> cmdq[k % (size / 2)] == ring[k]
    }

    // the words in the local buffer
    function Buffered(): seq<word>
      requires llen / 2 <= lbuf.Length
      reads this`llen, lbuf
    {
      lbuf[..llen / 2]
    }

    // glamo_dma_new
    constructor (mode: Mode, lsize: nat, size: nat)
      requires lsize % 2 == 0 && size >= 2
      ensures Valid() && this.mode == mode && this.lsize == lsize && this.size == size
      ensures Buffered() == [] && writes == [] && ring == [] && fresh(lbuf) && fresh(cmdq)
    {
      this.mode := mode;
      this.lsize := lsize;
      this.size := size;
      llen := 0;
      lbuf := new word[lsize / 2];
      cmdq := new word[size / 2 + 2];
      r, w := 0, 0;
      writes, ring := [], [];
    }

    // a run of the loop over a burst in dma_mmio_flush: n words from p on
    method Burst(reg0: word, p: nat, n: nat)
      requires p + n <= lbuf.Length
      modifies this`writes
      ensures writes == old(writes) + RunWrites(reg0, lbuf[p..p + n])
    {
      ghost var rest := lbuf[p..p + n];
      var reg, i := reg0, 0;
      while i < n
        invariant 0 <= i <= n && rest == lbuf[p + i..p + n]
        invariant writes + RunWrites(reg, rest) == old(writes) + RunWrites(reg0, lbuf[p..p + n])
      {
        writes := writes + [Write(reg, lbuf[p + i])];
        assert rest[0] == lbuf[p + i] && rest[1..] == lbuf[p + i + 1..p + n];
        reg := NextRegister(reg);
        i := i + 1;
        rest := rest[1..];
      }
    }

    // a burst in the loop of dma_mmio_flush, whose values begin at word p0
    method CarryBurst(reg: word, n: nat, p0: nat, end: nat) returns (p: nat)
      requires p0 + n <= end <= lbuf.Length
      modifies this`writes
      ensures p == p0 + n + n % 2 && writes == old(writes) + RunWrites(ClearBurst(reg), lbuf[p0..p0 + n])
    {
      Burst(ClearBurst(reg), p0, n);
      p := p0 + n;
      if n % 2 == 1 { p := p + 1; }
    }

    // one command in the loop of dma_mmio_flush, at word p
    method CarryOut(p0: nat, end: nat) returns (p: nat)
      requires p0 < end <= lbuf.Length && Framed(lbuf[p0..end])
      modifies this`writes
      ensures p == p0 + FrameLength(lbuf[p0..end]) && writes == old(writes) + Front(lbuf[p0..end])
    {
      ghost var words := lbuf[p0..end];
      assert FrameLength(words) <= |words| == end - p0 && words[0] == lbuf[p0] && words[1] == lbuf[p0 + 1];
      p := p0;
      var reg, val := lbuf[p], lbuf[p + 1];
      p := p + 2;
      if IsBurst(reg) {
        Slice(lbuf, p0, end, 2, val);
        p := CarryBurst(reg, val, p, end);
      } else {
        writes := writes + [Write(reg, val)];
      }
    }

    // dma_mmio_flush
    method MmioFlush()
      requires Valid() && Framed(Buffered())
      modifies this`writes, this`llen
      ensures Valid() && Buffered() == [] && writes == old(writes) + Interpret(old(Buffered()))
    {
      var p, end := 0, llen / 2;
      while p < end
        invariant 0 <= p <= end <= lbuf.Length && Framed(lbuf[p..end])
        invariant writes + Interpret(lbuf[p..end]) == old(writes) + Interpret(lbuf[..end])
      {
        ghost var words := lbuf[p..end];
        Regroup(writes, Front(words), Interpret(words[FrameLength(words)..]));
        p := CarryOut(p, end);
        assert lbuf[p..end] == words[FrameLength(words)..];
      }
      llen := 0;
    }

    // one word into the ring
    method Put(v: word)
      requires Valid()
      modifies this`w, this`ring, cmdq
      ensures Valid() && ring == old(ring) + [v] && 1 <= w
    {
      var n := size / 2;
      if w >= n { w := 0; }
      Slot(|ring|, n);
      assert w == |ring| % n;
      cmdq[w] := v;
      w := w + 1;
      ring := ring + [v];
      forall k | 0 <= k < |ring| && k >= |ring| - n ensures cmdq[k % n] == ring[k] {
        if k < |ring| - 1 { Apart(k, |ring| - 1, n); }
      }
    }

    // dma_cmdq_flush; while it waits the chip moves its read pointer away from the write pointer
    method CmdqFlush()
      requires Valid()
      modifies this, cmdq
      ensures Valid() && Buffered() == [] && ring == old(ring) + old(Buffered())
      ensures old(Buffered()) == [] ==> writes == old(writes)
      ensures old(Buffered()) != [] ==>
        1 <= w && writes == old(writes) + [Write(WRITE_ADDRH, AddrH(w)), Write(WRITE_ADDRL, AddrL(w))]
    {
      var count := llen / 2;
      if count == 0 { return; }
      var p := 0;
      while p < count
        invariant Valid() && 0 <= p <= count == llen / 2 && llen == old(llen) && writes == old(writes)
        invariant lbuf[..] == old(lbuf[..]) && ring == old(ring) + old(Buffered())[..p]
        invariant p > 0 ==> 1 <= w
      {
        Put(lbuf[p]);
        p := p + 1;
        if r == w {
          var address: int :| address != w;
          r := address;
        }
      }
      writes := writes + [Write(WRITE_ADDRH, AddrH(w)), Write(WRITE_ADDRL, AddrL(w))];
      llen := 0;
    }

    // glamo_dma_flush
    method Flush()
      requires Valid() && (mode == Mmio ==> Framed(Buffered()))
      modifies this, cmdq
      ensures Valid() && Buffered() == []
      ensures mode == Mmio ==> writes == old(writes) + Interpret(old(Buffered())) && ring == old(ring)
      ensures mode == Cmdq ==> ring == old(ring) + old(Buffered())
    {
      if llen == 0 { return; }
      match mode
      case Cmdq => CmdqFlush();
      case Mmio => MmioFlush();
    }

    // a flush between commands, and nothing left to be told after it
    method FlushMmio()
      requires Valid() && mode == Mmio && Framed(Buffered())
      modifies this, cmdq
      ensures Valid() && Buffered() == [] && Due() == old(Due()) == writes
    {
      Flush();
    }

    // perhaps a flush between groups
    method MaybeFlush()
      requires Valid() && mode == Mmio && Framed(Buffered())
      modifies this, cmdq
      ensures Valid() && Framed(Buffered()) && Due() == old(Due())
    {
      if * { FlushMmio(); }
    }

    // one group of commands
    method SendCommands(g: seq<Command>)
      requires Valid() && mode == Mmio && Framed(Buffered())
      requires EncodableAll(g) && |EncodeAll(g)| * 2 <= lsize
      modifies this, cmdq, lbuf
      ensures Valid() && Framed(Buffered()) && Due() == old(Due()) + Meaning(g)
    {
      EncodeAllBack(g);
      Send(EncodeAll(g));
    }

    // what the chip has been or will be told: for registers the writes, for the ring the words
    ghost function Due(): seq<Write>
      requires Valid() && Framed(Buffered())
      reads this, cmdq, lbuf
    {
      writes + Interpret(Buffered())
    }

    ghost function Queued(): seq<word>
      requires Valid()
      reads this, cmdq, lbuf
    {
      ring + Buffered()
    }

    // GLAMO_DMA_OUT for each pair of words
    method Store(p: nat, words: seq<word>)
      requires p + |words| <= lbuf.Length && |words| % 2 == 0
      modifies lbuf
      ensures lbuf[..p + |words|] == old(lbuf[..p]) + words
    {
      var count := 0;
      while count < |words|
        invariant 0 <= count <= |words| && count % 2 == 0 && lbuf[..p] == old(lbuf[..p])
        invariant forall j :: 0 <= j < count ==> lbuf[p + j] == words[j]
      {
        lbuf[p + count], lbuf[p + count + 1] := words[count], words[count + 1];
        count := count + 2;
      }
    }

    // GLAMO_DMA_BEGIN
    method Begin(n: nat)
      requires Valid() && (mode == Mmio ==> Framed(Buffered())) && n * 2 <= lsize
      modifies this, cmdq
      ensures Valid() && llen + n * 2 <= lsize && (mode == Cmdq ==> Queued() == old(Queued()))
      ensures mode == Mmio ==> Framed(Buffered()) && Due() == old(Due())
    {
      if llen + n * 2 > lsize { Flush(); }
    }

    // the outputs and GLAMO_DMA_END
    method Append(words: seq<word>)
      requires Valid() && |words| % 2 == 0 && llen + |words| * 2 <= lsize
      modifies this`llen, lbuf
      ensures Valid() && Buffered() == old(Buffered()) + words
    {
      Store(llen / 2, words);
      llen := llen + |words| * 2;
    }

    /** GLAMO_DMA_BEGIN, its outputs and GLAMO_DMA_END: what is due grows by exactly this group,
        whether or not the buffer had to be flushed first. */
    method Send(words: seq<word>)
      requires Valid() && (mode == Mmio ==> Framed(Buffered()) && Framed(words))
      requires |words| % 2 == 0 && |words| * 2 <= lsize
      modifies this, cmdq, lbuf
      ensures Valid() && (mode == Cmdq ==> Queued() == old(Queued()) + words)
      ensures mode == Mmio ==> Framed(Buffered()) && Due() == old(Due()) + Interpret(words)
    {
      Begin(|words|);
      ghost var kept := Buffered();
      Regroup(ring, kept, words);
      Append(words);
      if mode == Mmio {
        InterpretConcat(kept, words);
        Regroup(writes, Interpret(kept), Interpret(words));
      }
    }
  }

  lemma Slice(a: array<word>, from: nat, to: nat, k: nat, n: nat)
    requires from + k + n <= to <= a.Length
    ensures a[from..to][k..k + n] == a[from + k..from + k + n]
  {
    var outer := a[from..to];
    var x, y := outer[k..k + n], a[from + k..from + k + n];
    forall j | 0 <= j < n ensures x[j] == y[j] {
      assert outer[k + j] == a[from + k + j];
    }
  }

  // slots follow each other
  lemma Slot(k: nat, n: nat)
    requires n > 0
    ensures k % n == if k == 0 || (k - 1) % n + 1 >= n then 0 else (k - 1) % n + 1
  {
    if k > 0 {
      var q, m := (k - 1) / n, (k - 1) % n;
      assert k - 1 == q * n + m;
      if m + 1 < n { Remainder(k, n, q, m + 1); } else { Remainder(k, n, q + 1, 0); }
    }
  }

  // words less than a ring apart have different slots
  lemma Apart(j: nat, k: nat, n: nat)
    requires n > 0 && j < k < j + n
    ensures j % n != k % n
  {
    if j % n == k % n {
      var q, t, m := j / n, k / n, j % n;
      assert k - j == (t - q) * n;
      Between(t - q, n);
    }
  }

  lemma Remainder(x: nat, n: nat, q: nat, m: nat)
    requires m < n && x == q * n + m
    ensures x % n == m
  {
    var d := x / n - q;
    assert x == (x / n) * n + x % n;
    assert d * n == m - x % n;
    Between(d, n);
  }

  // no multiple of n lies strictly between 0 and n, or 0 and -n
  lemma Between(d: int, n: int)
    requires n > 0
    ensures -n < d * n < n ==> d == 0
  {
    if d >= 1 { assert d * n >= n; } else if d <= -1 { assert d * n <= -n; }
  }

  /** Buffering is invisible: any groups of commands that each fit the buffer, flushed whenever
      the buffer is full, perhaps in between, and once at the end, make exactly their register
      writes in order, with runs expanded. */
  method Transparent(groups: seq<seq<Command>>, lsize: nat) returns (writes: seq<Write>)
    requires lsize % 2 == 0
    requires forall i :: 0 <= i < |groups| ==> EncodableAll(groups[i]) && |EncodeAll(groups[i])| * 2 <= lsize
    ensures writes == MeaningAll(groups)
  {
    var m := new Manager(Mmio, lsize, 2);
    var i := 0;
    while i < |groups|
      invariant 0 <= i <= |groups| && m.Valid() && fresh(m) && fresh(m.lbuf) && fresh(m.cmdq)
      invariant m.mode == Mmio && m.lsize == lsize && Framed(m.Buffered()) && m.Due() == MeaningAll(groups[..i])
    {
      MeaningAllMore(groups, i);
      m.SendCommands(groups[i]);
      m.MaybeFlush();
      i := i + 1;
    }
    assert groups[..i] == groups;
    m.FlushMmio();
    writes := m.writes;
  }

  function MeaningAll(groups: seq<seq<Command>>): seq<Write> {
    if groups == [] then [] else Meaning(groups[0]) + MeaningAll(groups[1..])
  }

  lemma {:induction false} MeaningAllMore(groups: seq<seq<Command>>, i: nat)
    requires i < |groups|
    ensures MeaningAll(groups[..i + 1]) == MeaningAll(groups[..i]) + Meaning(groups[i])
    decreases i
  {
    assert groups[..i + 1] == groups[..i] + [groups[i]];
    MeaningAllLast(groups[..i], groups[i]);
  }

  lemma {:induction false} MeaningAllLast(groups: seq<seq<Command>>, g: seq<Command>)
    ensures MeaningAll(groups + [g]) == MeaningAll(groups) + Meaning(g)
  {
    if groups == [] {
      assert groups + [g] == [g] && MeaningAll([]) == [];
    } else {
      assert (groups + [g])[1..] == groups[1..] + [g];
      MeaningAllLast(groups[1..], g);
    }
  }
}
