/** When a run of reads or writes over several blocks goes through, and why it keeps going through. */
module RunTheory {
  import opened Bytes
  import opened Providers
  import opened CacheModel
  import opened CacheTheory
  import opened ReaderTheory
  import opened Wrappers

  /** A run over [from, to) enters the last block of the content from an earlier block. */
  predicate Crosses(bs: nat, size: nat, from: nat, to: nat)
    requires bs > 0
  {
    size > 0 && from < (size - 1) / bs * bs < to
  }

  /**
   When the cache can pass over [from, to) block by block. Unpadded it needs a legal length when it first has
   to finish the tail; padded it must not come back to the last block.
   */
  predicate CanRun(c: Cache, size: nat, from: nat, to: nat) {
    from < to ==>
      CanMove(c, size, from) && !(c.simple.provider.Padded() && Crosses(c.BlockSize(), size, from, to))
  }

  /** A write at `off`; a gap before it is filled from the end of the content on. */
  predicate CanWriteAt(c: Cache, size: nat, off: nat, n: nat) {
    CanRun(c, size, Min(off, size), off + n)
  }

  /** A read at `off`; on a writable stream an offset past the end grows the content. */
  predicate CanReadAt(c: Cache, size: nat, off: nat, n: nat) {
    if off > size then CanRun(c, size, size, off) else CanRun(c, size, off, Min(off + n, size))
  }

  lemma NextBlock(bs: nat, s: nat)
    requires (bs == 512 || bs == 4096) && OnBlock(bs, s)
    ensures OnBlock(bs, s + bs)
  {
    assert (s / bs + 1) * bs == s + bs;
    BlockUnique(bs, s / bs + 1, s + bs);
  }

  lemma LastBlock(bs: nat, s: nat, size: nat)
    requires (bs == 512 || bs == 4096) && OnBlock(bs, s) && s < size <= s + bs
    ensures (size - 1) / bs * bs == s
  {
    BlockUnique(bs, s / bs, size - 1);
  }

  /** Once a block of the run is done, the rest of the run can be done too. */
  lemma RunContinues(bs: nat, padded: bool, size: nat, size': nat, from: nat, next: nat, to: nat)
    requires (bs == 512 || bs == 4096) && from / bs * bs + bs == next < to
    requires from <= size && size <= size' && (size' == size || size' <= next)
    requires !(padded && Crosses(bs, size, from, to))
    ensures OnBlock(bs, next)
    ensures !(padded && InLastBlock(bs, size', next))
    ensures !(padded && Crosses(bs, size', next, to))
  {
    BlockOf(bs, from);
    BlockUnique(bs, from / bs, from / bs * bs);
    NextBlock(bs, from / bs * bs);
    if size' > next {
      BlockOf(bs, size' - 1);
      if size' <= next + bs {
        LastBlock(bs, next, size');
      }
    } else if size' > 0 {
      BlockOf(bs, size' - 1);
    }
  }

  /** A cache at the last block can take more at the end of the content. */
  lemma TailCanMove(c: Cache, content: seq<byte>)
    requires Writer(c, content) && content != []
    requires c.start == (|content| - 1) / c.BlockSize() * c.BlockSize()
    ensures CanMove(c, |content|, |content|)
    ensures forall to :: CanRun(c, |content|, |content|, to)
  {
    hide Provider.Cipher, TailPending, Committed, Unloaded;
    var bs, size := c.BlockSize(), |content|;
    BlockOf(bs, size - 1);
    if size < c.start + bs {
      BlockUnique(bs, (size - 1) / bs, size);
    } else {
      BlockUnique(bs, (size - 1) / bs, c.start);
      NextBlock(bs, c.start);
    }
  }

  /** A move of the cache and a write into its block. */
  lemma WriteMove(c: Cache, content: seq<byte>, pos: nat, data: seq<byte>)
    requires Writer(c, content) && pos <= |content| && data != []
    requires Fits(c.BlockSize(), pos + |data|) && CanMove(c, |content|, pos)
    ensures c.UpdateBlock(pos).Ok?
    ensures var m := c.UpdateBlock(pos).value;
            var k, d := m.Room(pos, |data|), m.WriteToBlock(data, pos);
            && 0 < k <= |data|
            && Writer(d, Splice(content, pos, data[..k])) && SameContainer(c, d)
            && d.start == pos / c.BlockSize() * c.BlockSize() == (pos + k - 1) / c.BlockSize() * c.BlockSize()
            && (k < |data| ==> pos + k == d.start + c.BlockSize())
  {
    hide Provider.Cipher, Provider.Decipher, TailPending, Committed, Unloaded, Emptied, Frontier, Cache.UpdateBlock,
      Cache.WriteToBlock, Provider.Legal;
    var bs := c.BlockSize();
    UpdateExact(c, content, pos);
    BlockOf(bs, pos);
    var m := c.UpdateBlock(pos).value;
    WriteStep(m, content, data, pos);
    BlockUnique(bs, pos / bs, pos + m.Room(pos, |data|) - 1);
  }

  /** One round of the write loop. */
  lemma WriteRound(c: Cache, content: seq<byte>, pos: nat, data: seq<byte>)
    requires Writer(c, content) && pos <= |content| && data != []
    requires Fits(c.BlockSize(), pos + |data|)
    requires CanRun(c, |content|, pos, pos + |data|)
    ensures c.UpdateBlock(pos).Ok?
    ensures var m := c.UpdateBlock(pos).value;
            var k, d := m.Room(pos, |data|), m.WriteToBlock(data, pos);
            var content' := Splice(content, pos, data[..k]);
            && 0 < k <= |data|
            && Writer(d, content')
            && SameContainer(c, d)
            && d.start == (pos + k - 1) / c.BlockSize() * c.BlockSize()
            && CanRun(d, |content'|, pos + k, pos + |data|)
  {
    hide TailPending, Committed, Unloaded, Emptied, Provider.Legal, Cache.UpdateBlock, Cache.WriteToBlock, Cache.Room;
    WriteMove(c, content, pos, data);
    var k := c.UpdateBlock(pos).value.Room(pos, |data|);
    if k < |data| {
      RunContinues(c.BlockSize(), c.simple.provider.Padded(), |content|, |Splice(content, pos, data[..k])|,
        pos, pos + k, pos + |data|);
    }
  }

  /** A move of the cache and a read from its block. */
  lemma ReadMove(c: Cache, content: seq<byte>, pos: nat, n: nat)
    requires Writer(c, content) && pos < |content| && n > 0 && CanMove(c, |content|, pos)
    ensures c.UpdateBlock(pos).Ok?
    ensures var m := c.UpdateBlock(pos).value;
            var r := m.ReadFromBlock(pos, n);
            && Writer(m, content) && SameContainer(c, m)
            && 0 < |r| <= n && pos + |r| <= |content| && r == content[pos..pos + |r|]
            && m.start == pos / c.BlockSize() * c.BlockSize() == (pos + |r| - 1) / c.BlockSize() * c.BlockSize()
            && (pos + |r| < Min(pos + n, |content|) ==> pos + |r| == m.start + c.BlockSize())
  {
    hide TailPending, Committed, Unloaded, Emptied, Frontier, Cache.UpdateBlock, Cache.ReadFromBlock, CanMove;
    var bs := c.BlockSize();
    UpdateExact(c, content, pos);
    BlockOf(bs, pos);
    var m := c.UpdateBlock(pos).value;
    MovedBlock(c, m, content, pos);
    ReadStep(m, content, pos, n);
    BlockUnique(bs, pos / bs, pos + Min(n, m.start + m.size - pos) - 1);
  }

  /** What the cached block holds. */
  lemma MovedBlock(c: Cache, m: Cache, content: seq<byte>, pos: nat)
    requires Writer(m, content) && pos < |content|
    requires c.BlockSize() == m.BlockSize() && m.start <= pos < m.start + m.size
    ensures m.start != NO_BLOCK && m.start + m.size <= |content| && m.size <= c.BlockSize()
    ensures m.start + m.size == |content| || m.size == c.BlockSize()
  {
    hide Provider.Cipher;
  }

  /** One round of the read loop of a writer. */
  lemma ReadRound(c: Cache, content: seq<byte>, pos: nat, n: nat)
    requires Writer(c, content) && pos < |content| && n > 0
    requires CanRun(c, |content|, pos, Min(pos + n, |content|))
    ensures c.UpdateBlock(pos).Ok?
    ensures var m := c.UpdateBlock(pos).value;
            var r := m.ReadFromBlock(pos, n);
            && Writer(m, content) && SameContainer(c, m)
            && 0 < |r| <= n && pos + |r| <= |content| && r == content[pos..pos + |r|]
            && CanRun(m, |content|, pos + |r|, Min(pos + n, |content|))
            && m.start == (pos + |r| - 1) / c.BlockSize() * c.BlockSize()
  {
    hide TailPending, Committed, Unloaded, Emptied, Provider.Legal, Cache.UpdateBlock, Cache.ReadFromBlock;
    ReadMove(c, content, pos, n);
    var m := c.UpdateBlock(pos).value;
    var k := |m.ReadFromBlock(pos, n)|;
    if pos + k < Min(pos + n, |content|) {
      RunContinues(c.BlockSize(), c.simple.provider.Padded(), |content|, |content|, pos, pos + k,
        Min(pos + n, |content|));
    }
  }

  /** One round of the read loop of a reader. */
  lemma ReadRoundReader(c: Cache, plain: seq<byte>, pos: nat, n: nat)
    requires Reader(c, plain) && pos < c.simple.contentSize && n > 0
    ensures c.UpdateBlock(pos).Ok?
    ensures var m := c.UpdateBlock(pos).value;
            var r := m.ReadFromBlock(pos, n);
            && Reader(m, plain) && m.simple == c.simple && |m.buffer| == |c.buffer|
            && (r == [] ==> pos >= |plain|)
            && |r| <= n
            && (r != [] ==> pos + |r| <= |plain| && r == plain[pos..pos + |r|])
  {
    hide Provider.Cipher, Whole, Cache.UpdateBlock, Cache.ReadFromBlock;
    UpdateReader(c, plain, pos);
    BlockOf(c.BlockSize(), pos);
    ReadStepReader(c.UpdateBlock(pos).value, plain, pos, n);
  }

  // ---------------------------------------------------------------- both roles at once

  /** What a stream denotes, as a writer or as a reader. */
  ghost predicate Denotes(writer: bool, c: Cache, content: seq<byte>) {
    if writer then Writer(c, content) else Reader(c, content)
  }

  /** The size that the stream reports: a reader counts ciphertext. */
  lemma ReportedSize(writer: bool, c: Cache, content: seq<byte>)
    requires Denotes(writer, c, content)
    ensures c.Shape()
    ensures c.GetSizeInternal() == if writer then |content| else c.simple.contentSize
    ensures |content| <= c.GetSizeInternal()
  {
    if writer {
      NumbersExact(c, content, 0);
    } else {
      ReaderSize(c, content);
    }
  }

  /** From the end of the content on a run is possible as soon as it can start. */
  lemma TailRuns(c: Cache, size: nat, to: nat)
    requires size < to ==> CanMove(c, size, size)
    ensures CanRun(c, size, size, to)
  {
    hide CanMove;
    if size > 0 {
      BlockOf(c.BlockSize(), size - 1);
    }
  }

  /** The content after a write through the last block can be continued at its end. */
  lemma TailReady(c: Cache, content: seq<byte>)
    requires Denotes(true, c, content) && content != []
    requires c.start == (|content| - 1) / c.BlockSize() * c.BlockSize()
    ensures CanMove(c, |content|, |content|)
  {
    hide TailPending, Committed, Unloaded, CanMove;
    TailCanMove(c, content);
  }

  /** The block that is cached after a cut. */
  function CutStart(bs: nat, newSize: nat): nat
    requires bs > 0
  {
    if newSize == 0 then 0 else (newSize - 1) / bs * bs
  }

  /** A cut went through and left `content`, which can grow again. */
  ghost predicate WasCut(c: Cache, r: Result<Cache>, content: seq<byte>, newSize: nat) {
    && r.Ok? && Denotes(true, r.value, content) && SameContainer(c, r.value)
    && r.value.simple.contentSize == newSize && CanMove(r.value, newSize, newSize)
    && r.value.start == CutStart(c.BlockSize(), newSize)
  }

  /** Cutting the stream, where the byte before the new size can be reached and is counted. */
  lemma ShrinkRound(c: Cache, content: seq<byte>, newSize: nat)
    requires Denotes(true, c, content) && CanShrink(c, |content|, newSize)
    ensures c.Shape() && 0 < newSize < |content|
    ensures WasCut(c, c.Cut(newSize), content[..newSize], newSize)
  {
    hide Provider.Cipher, Cache.UpdateBlock, Cache.RewriteFinalBlock, Cache.SizeInternal, Simple.Shrink, TailPending,
      Committed, Frontier;
    RewriteKeeps(c, content, newSize);
    BlockOf(c.BlockSize(), newSize - 1);
    var u := c.UpdateBlock(newSize - 1).value;
    WriterBacked(u, content);
    CutKeeps(u, content, newSize);
    var e := c.Cut(newSize).value;
    SameContainerTransitive(c, u, e);
    TailReady(e, content[..newSize]);
  }

  lemma FlushRound(c: Cache, content: seq<byte>)
    requires Denotes(true, c, content)
    ensures c.Shape()
    ensures if CanFlush(c.simple.provider, |content|) then
              Flushed(c, c.Flush(), content) && Denotes(true, c.Flush().value, content)
            else c.Flush().Err?
  {
    hide TailPending, Committed, Unloaded, Cache.Flush;
    FlushExact(c, content);
  }
}
