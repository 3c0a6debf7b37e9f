/**
 Writing to existing content, and flushing it. A stream opened on finished ciphertext does not know that the final block
 has been written, so a pending block before the last is taken for the end of the stream.
 */
module OpenTheory {
  import opened BlockCipher
  import opened Bytes
  import opened Providers
  import opened CacheModel
  import opened CacheTheory
  import opened LoopTheory
  import opened ReaderTheory
  import opened ReloadTheory
  import opened RunTheory
  import opened Wrappers

  /** Existing content without padding, opened and so far only read. */
  ghost predicate Opened(c: Cache, content: seq<byte>) {
    Reader(c, content) && !c.simple.provider.Padded() && content != []
  }

  /** The cache as it would be if the stream had been written from its start. */
  function Marked(c: Cache): Cache {
    c.(finalWritten := true)
  }

  lemma OpenedBytes(c: Cache, content: seq<byte>)
    requires Opened(c, content)
    ensures c.Shape() && !c.pending && !c.finalWritten && Fits(c.BlockSize(), |content|)
    ensures c.simple.contentSize == |content| && Clean(Marked(c), content)
    ensures c.GetSizeInternal() == |content|
  {
    hide Provider.Cipher;
    ReaderSize(c, content);
  }

  lemma OpenedBlock(c: Cache, content: seq<byte>)
    requires Opened(c, content) && c.start != NO_BLOCK
    ensures Means(Marked(c), content)
  {
    hide Provider.Cipher;
    OpenedBytes(c, content);
    ReaderSize(c, content);
    if c.start == |content| {
      CleanFrontier(Marked(c), content);
      FrontierUnmarked(c, content);
    } else {
      assert Committed(Marked(c), content);
    }
  }

  lemma FrontierUnmarked(c: Cache, content: seq<byte>)
    requires c.Shape()
    ensures Frontier(Marked(c), content) <==> Frontier(c, content)
  {
    hide Provider.Cipher;
  }

  lemma BlockOnly(c: Cache, pos: nat, at: nat)
    requires c.Shape() && !c.pending && !c.finalWritten && pos / c.BlockSize() == at / c.BlockSize()
    ensures c.UpdateBlock(pos) == c.UpdateBlock(at)
  {
    hide Cache.Load;
  }

  lemma AtEndLoads(c: Cache, content: seq<byte>)
    requires Opened(c, content) && OnBlock(c.BlockSize(), |content|)
    requires c.start != |content| / c.BlockSize() * c.BlockSize()
    ensures var r := c.UpdateBlock(|content|);
            && r.Ok? && SameContainer(c, r.value) && r.value.start == |content|
            && r.value.simple == c.simple && !r.value.finalWritten && !r.value.pending
            && AtEnd(Marked(r.value), content)
  {
    hide Provider.Cipher, Cache.Load, Simple.ReadInternal;
    var j := |content| / c.BlockSize();
    OpenedBytes(c, content);
    SmallNumber(c, |content|);
    if c.start != NO_BLOCK {
      OpenedStart(c, content);
      SmallNumber(c, c.start);
    }
    CleanFrontier(Marked(c), content);
    FrontierUnmarked(c, content);
    LoadEnd(c, content, j);
    LoadKeeps(c, j);
    FrontierUnmarked(c.Load(j).value, content);
  }

  lemma OpenedStart(c: Cache, content: seq<byte>)
    requires Opened(c, content) && c.start != NO_BLOCK
    ensures OnBlock(c.BlockSize(), c.start) && c.start <= |content|
  {
    hide Provider.Cipher;
  }

  lemma LoadKeeps(c: Cache, j: nat)
    requires c.Shape() && c.Load(j).Ok?
    ensures var d := c.Load(j).value;
            d.simple == c.simple && d.finalWritten == c.finalWritten && d.pending == c.pending
            && d.start == j * c.BlockSize()
  {
    hide Simple.ReadInternal;
  }

  /** The cache can move to any block, and to the end. */
  lemma OpenedMoves(c: Cache, content: seq<byte>, pos: nat)
    requires Opened(c, content) && pos <= |content|
    ensures var r := c.UpdateBlock(pos);
            && r.Ok? && r.value.start == pos / c.BlockSize() * c.BlockSize() && r.value.simple == c.simple
            && !r.value.finalWritten && !r.value.pending && Means(Marked(r.value), content)
  {
    hide Provider.Cipher, Cache.UpdateBlock, Means;
    var bs := c.BlockSize();
    OpenedBytes(c, content);
    BlockOf(bs, pos);
    if pos / bs * bs < |content| {
      var at := Min(pos, |content| - 1);
      BlockUnique(bs, pos / bs, at);
      BlockOnly(c, pos, at);
      UpdateReader(c, content, at);
      OpenedBlock(c.UpdateBlock(at).value, content);
    } else if c.start == pos / bs * bs {
      SameBlock(c, content, pos);
      OpenedBlock(c, content);
    } else {
      BlockUnique(bs, pos / bs, |content|);
      AtEndLoads(c, content);
      AtEndMeans(c.UpdateBlock(pos).value, content);
    }
  }

  lemma AtEndMeans(c: Cache, content: seq<byte>)
    requires AtEnd(Marked(c), content)
    ensures Means(Marked(c), content)
  {
    hide Provider.Cipher;
  }

  lemma SameBlock(c: Cache, content: seq<byte>, pos: nat)
    requires c.Shape() && !c.pending && !c.finalWritten && Fits(c.BlockSize(), pos) && pos <= |content|
    requires c.start == pos / c.BlockSize() * c.BlockSize()
    ensures c.start != NO_BLOCK && c.UpdateBlock(pos) == Ok(c)
  {
    BlockOf(c.BlockSize(), pos);
    BlockUnique(c.BlockSize(), pos / c.BlockSize(), c.start);
  }

  /** A block before the last has been written and is pending; the reported size ends there. */
  ghost predicate Early(c: Cache, content: seq<byte>) {
    && c.Shape() && c.pending && !c.finalWritten && !c.simple.provider.Padded()
    && c.start != NO_BLOCK && c.start + c.BlockSize() < |content|
    && Writer(Marked(c), content) && Committed(Marked(c), content)
  }

  lemma EarlyBytes(c: Cache, content: seq<byte>)
    requires Early(c, content)
    ensures c.simple.contentSize == |content| && Fits(c.BlockSize(), |content|) && OnBlock(c.BlockSize(), c.start)
    ensures c.size == c.BlockSize() && c.simple.provider.Legal(|content|)
    ensures c.GetSizeInternal() == c.start + c.BlockSize() && c.CalculateBlockNumber(c.start) == c.start / c.BlockSize()
  {
    hide Provider.Cipher;
    SmallNumber(c, c.start);
    BlockOf(c.BlockSize(), c.start);
  }

  /** Writing it out leaves finished ciphertext again. */
  lemma EarlyEvicts(c: Cache, content: seq<byte>, pos: nat)
    requires Early(c, content)
    ensures c.Evict(pos).Ok? && Opened(c.Evict(pos).value, content)
    ensures var e := c.Evict(pos).value;
            SameContainer(c, e) && e.start == c.start
  {
    hide Provider.Cipher, Simple.WriteInternal;
    EarlyBytes(c, content);
    MiddleWritten(Marked(c), content);
    CipherLength(c.simple.provider, content, 0, true);
  }

  /** The cache, ready for a write to its block. */
  ghost predicate Poised(m: Cache, content: seq<byte>) {
    && !m.finalWritten && !m.simple.provider.Padded() && Means(Marked(m), content) && m.simple.contentSize == |content|
  }

  /** From both situations the cache can move to any block, and to the end. */
  lemma ExistingMoves(c: Cache, content: seq<byte>, pos: nat)
    requires (Opened(c, content) || Early(c, content)) && pos <= |content|
    ensures var r := c.UpdateBlock(pos);
            && r.Ok? && r.value.start == pos / c.BlockSize() * c.BlockSize() && Poised(r.value, content)
            && SameContainer(c, r.value)
  {
    hide Provider.Cipher, Cache.UpdateBlock, Means, Opened, Early, SameContainer;
    if Opened(c, content) {
      OpenedPoised(c, content, pos);
    } else {
      EarlyMoves(c, content, pos);
    }
  }

  lemma OpenedPoised(c: Cache, content: seq<byte>, pos: nat)
    requires Opened(c, content) && pos <= |content|
    ensures var r := c.UpdateBlock(pos);
            && r.Ok? && r.value.start == pos / c.BlockSize() * c.BlockSize() && Poised(r.value, content)
            && SameContainer(c, r.value)
  {
    hide Provider.Cipher, Cache.UpdateBlock, Means;
    OpenedMoves(c, content, pos);
    OpenedBytes(c, content);
    BufferKept(c, pos);
    ReaderMoved(c, c.UpdateBlock(pos).value);
  }

  lemma BufferKept(c: Cache, pos: nat)
    requires c.Shape() && c.UpdateBlock(pos).Ok? && c.UpdateBlock(pos).value.simple.provider == c.simple.provider
    ensures |c.UpdateBlock(pos).value.buffer| == |c.buffer|
  {
    hide Cache.UpdateBlock;
  }

  lemma EarlyMoves(c: Cache, content: seq<byte>, pos: nat)
    requires Early(c, content) && pos <= |content|
    ensures var r := c.UpdateBlock(pos);
            && r.Ok? && r.value.start == pos / c.BlockSize() * c.BlockSize() && Poised(r.value, content)
            && SameContainer(c, r.value)
  {
    hide Provider.Cipher, Cache.Load, Cache.Evict, Means, Opened, SameContainer, Committed;
    var bs := c.BlockSize();
    EarlyBytes(c, content);
    SmallNumber(c, pos);
    BlockOf(bs, pos);
    if c.start == pos / bs * bs {
      SameContainerReflexive(c);
      EarlyMeans(c, content);
      BlockUnique(bs, pos / bs, c.start);
      assert c.UpdateBlock(pos) == Ok(c);
    } else {
      EarlyEvicts(c, content, pos);
      var e := c.Evict(pos).value;
      OpenedBytes(e, content);
      OpenedPoised(e, content, pos);
      SameProvider(c, e);
      EvictedLoads(c, e, pos);
      SameContainerTransitive(c, e, e.UpdateBlock(pos).value);
    }
  }

  lemma EarlyMeans(c: Cache, content: seq<byte>)
    requires Early(c, content)
    ensures Poised(c, content)
  {
    hide Provider.Cipher;
  }

  lemma EvictedLoads(c: Cache, e: Cache, pos: nat)
    requires c.Shape() && c.pending && !c.finalWritten && c.start != NO_BLOCK && c.Evict(pos) == Ok(e)
    requires e.Shape() && !e.pending && !e.finalWritten && e.start == c.start && e.BlockSize() == c.BlockSize()
    requires OnBlock(c.BlockSize(), c.start) && c.start != pos / c.BlockSize() * c.BlockSize()
    requires Fits(c.BlockSize(), c.start) && Fits(c.BlockSize(), pos)
    ensures c.UpdateBlock(pos) == e.UpdateBlock(pos)
  {
    hide Cache.Evict, Cache.Load;
    SmallNumber(c, pos);
    SmallNumber(c, c.start);
  }

  /** A write to a block: in the last one, or behind it, the stream is a writer's; before it the write is early. */
  lemma ExistingStep(m: Cache, content: seq<byte>, pos: nat, data: seq<byte>)
    requires Poised(m, content) && data != [] && Fits(m.BlockSize(), pos + |data|) && m.start != NO_BLOCK
    requires m.start <= pos <= |content| && pos < m.start + m.BlockSize()
    ensures m.Shape()
    ensures var k, d := m.Room(pos, |data|), m.WriteToBlock(data, pos);
            && k == Min(|data|, m.start + m.BlockSize() - pos) && d.start == m.start && SameContainer(m, d)
            && if m.start + m.BlockSize() >= |content| then Writer(d, Splice(content, pos, data[..k]))
               else Early(d, Splice(content, pos, data[..k]))
  {
    hide Provider.Cipher, Cache.WriteToBlock, Emptied, TailPending, Unloaded, Cache.GetSizeInternal, Cache.Room;
    WriteStep(Marked(m), content, data, pos);
    MarkedWrite(m, pos, data);
    MarkedContainer(m, m.WriteToBlock(data, pos), Marked(m).WriteToBlock(data, pos));
    if m.start + m.BlockSize() < |content| {
      EarlyWrite(m, content, pos, data);
    }
  }

  lemma MarkedContainer(m: Cache, d: Cache, e: Cache)
    requires SameContainer(Marked(m), e) && d.simple == m.simple && |d.buffer| == |e.buffer|
    ensures SameContainer(m, d)
  {
  }

  lemma EarlyWrite(m: Cache, content: seq<byte>, pos: nat, data: seq<byte>)
    requires Poised(m, content) && data != [] && m.start != NO_BLOCK
    requires m.start <= pos < m.start + m.BlockSize() < |content|
    requires var k := m.Room(pos, |data|);
             Writer(Marked(m).WriteToBlock(data, pos), Splice(content, pos, data[..k]))
    ensures Early(m.WriteToBlock(data, pos), Splice(content, pos, data[..m.Room(pos, |data|)]))
  {
    hide Provider.Cipher, Committed;
    var d := m.WriteToBlock(data, pos);
    assert Marked(d) == Marked(m).WriteToBlock(data, pos);
  }

  lemma MarkedWrite(m: Cache, pos: nat, data: seq<byte>)
    requires m.Shape() && m.start <= pos < m.start + m.BlockSize() && !m.finalWritten
    ensures var d := m.WriteToBlock(data, pos);
            d.simple == m.simple && d.start == m.start && !d.finalWritten && d.Shape()
    ensures m.Room(pos, |data|) == Marked(m).Room(pos, |data|)
    ensures m.start + m.BlockSize() >= m.simple.contentSize ==>
              m.WriteToBlock(data, pos) == Marked(m).WriteToBlock(data, pos)
    ensures m.start + m.BlockSize() < m.simple.contentSize ==>
              Marked(m.WriteToBlock(data, pos)) == Marked(m).WriteToBlock(data, pos)
  {
  }

  /** What the write loop leaves of existing content: a writer, or an early write at the last block it touched. */
  ghost predicate Wrote(d: Cache, content: seq<byte>, size: nat, last: nat) {
    if last + d.BlockSize() >= size then Writer(d, content) else Early(d, content) && d.start == last
  }

  lemma {:induction false} ExistingWriteLoop(c: Cache, content: seq<byte>, pos: nat, data: seq<byte>)
    requires (Opened(c, content) || Early(c, content)) && pos <= |content| && data != []
    requires Fits(c.BlockSize(), pos + |data|)
    ensures c.Shape() && WriteLoop(c, pos, data).Ok?
    ensures var (n, d) := WriteLoop(c, pos, data).value;
            && n == |data| && SameContainer(c, d)
            && Wrote(d, Splice(content, pos, data), |content|, TouchedLast(c.BlockSize(), 0, pos, pos + |data|))
    decreases |data|, 1
  {
    hide Provider.Cipher, Opened, Early, Poised, WriteLoop, Cache.UpdateBlock, Cache.WriteToBlock, Cache.Room,
      SameContainer, TailPending, Committed, Unloaded, Emptied, Cache.BlockSize, Wrote, TouchedLast;
    ExistingShape(c, content);
    ExistingMoves(c, content, pos);
    BlockOf(c.BlockSize(), pos);
    var m := c.UpdateBlock(pos).value;
    SameProvider(c, m);
    ExistingStep(m, content, pos, data);
    var k, d := m.Room(pos, |data|), m.WriteToBlock(data, pos);
    SameContainerTransitive(c, m, d);
    SameProvider(m, d);
    WriteLoopStep(c, m, d, pos, data, k);
    var content' := Splice(content, pos, data[..k]);
    if k == |data| {
      assert data[..k] == data;
      WriteLoopEnds(d, d, pos + k, data[k..]);
      WroteHere(d, content', |content|, pos, pos + k);
    } else {
      ExistingRest(d, content, pos, data, k);
      SpliceJoins(content, pos, data, k);
      SameContainerTransitive(c, d, WriteLoop(d, pos + k, data[k..]).value.1);
    }
  }

  lemma WroteHere(d: Cache, content: seq<byte>, size: nat, pos: nat, to: nat)
    requires pos < to && d.start == pos / d.BlockSize() * d.BlockSize() && to <= d.start + d.BlockSize()
    requires if d.start + d.BlockSize() >= size then Writer(d, content) else Early(d, content)
    ensures Wrote(d, content, size, TouchedLast(d.BlockSize(), 0, pos, to))
  {
    hide Writer, Early;
    BlockOf(d.BlockSize(), pos);
    BlockUnique(d.BlockSize(), pos / d.BlockSize(), to - 1);
  }

  /** After a full block the write goes on, as a writer's or as an early one. */
  lemma {:induction false} ExistingRest(d: Cache, content: seq<byte>, pos: nat, data: seq<byte>, k: nat)
    requires pos <= |content| && 0 < k < |data| && Fits(d.BlockSize(), pos + |data|)
    requires d.start == pos / d.BlockSize() * d.BlockSize() && pos + k == d.start + d.BlockSize()
    requires var content' := Splice(content, pos, data[..k]);
             if d.start + d.BlockSize() >= |content| then Writer(d, content') else Early(d, content')
    ensures d.Shape() && WriteLoop(d, pos + k, data[k..]).Ok?
    ensures var (n, e) := WriteLoop(d, pos + k, data[k..]).value;
            && n == |data| - k && SameContainer(d, e)
            && Wrote(e, Splice(Splice(content, pos, data[..k]), pos + k, data[k..]), |content|,
                     TouchedLast(d.BlockSize(), 0, pos, pos + |data|))
    decreases |data|, 0
  {
    hide Provider.Cipher, Opened, Early, Poised, WriteLoop, SameContainer, TailPending, Committed, Unloaded, Emptied,
      Cache.BlockSize, Wrote;
    var content' := Splice(content, pos, data[..k]);
    BlockUnique(d.BlockSize(), pos / d.BlockSize(), pos + k - 1) by { BlockOf(d.BlockSize(), pos); }
    if d.start + d.BlockSize() >= |content| {
      TailCanMove(d, content');
      WriteLoopRuns(d, content', pos + k, data[k..]);
      var e := WriteLoop(d, pos + k, data[k..]).value.1;
      SameProvider(d, e);
      LaterBlock(d.BlockSize(), pos, pos + |data|);
      WroteLater(e, Splice(content', pos + k, data[k..]), |content|, TouchedLast(d.BlockSize(), 0, pos, pos + |data|));
    } else {
      ExistingWriteLoop(d, content', pos + k, data[k..]);
    }
  }

  lemma WroteLater(e: Cache, content: seq<byte>, size: nat, last: nat)
    requires Writer(e, content) && last + e.BlockSize() >= size
    ensures Wrote(e, content, size, last)
  {
  }

  lemma ExistingShape(c: Cache, content: seq<byte>)
    requires Opened(c, content) || Early(c, content)
    ensures c.Shape() && content != [] && Fits(c.BlockSize(), |content|)
  {
    hide Provider.Cipher, Committed;
    if Opened(c, content) {
      OpenedBytes(c, content);
    }
  }

  lemma LaterBlock(bs: nat, pos: nat, to: nat)
    requires (bs == 512 || bs == 4096) && pos < to
    ensures pos / bs * bs <= TouchedLast(bs, 0, pos, to)
  {
    if bs == 512 {
      assert pos / 512 <= (to - 1) / 512;
    } else {
      assert pos / 4096 <= (to - 1) / 4096;
    }
  }

  /**
   A write of any length to existing content is a write into a plain array exactly when the last block it touches is the
   last block, or behind it. Otherwise the stream then reports the end of the touched block as its size.
   */
  lemma OpenedWriteExact(c: Cache, content: seq<byte>, pos: nat, data: seq<byte>)
    requires Opened(c, content) && pos <= |content| && data != [] && Fits(c.BlockSize(), pos + |data|)
    ensures c.Shape() && WriteLoop(c, pos, data).Ok?
    ensures var (n, d) := WriteLoop(c, pos, data).value;
            var last := TouchedLast(c.BlockSize(), 0, pos, pos + |data|);
            && n == |data|
            && (Writer(d, Splice(content, pos, data)) <==> last + c.BlockSize() >= |content|)
            && (last + c.BlockSize() < |content|
                ==> Early(d, Splice(content, pos, data)) && d.GetSizeInternal() == last + c.BlockSize())
  {
    hide Provider.Cipher, TailPending, Committed, Unloaded, Emptied, Opened, Cache.UpdateBlock, Cache.GetSizeInternal,
      WriteLoop, SameContainer, TouchedLast;
    ExistingWriteLoop(c, content, pos, data);
    var d := WriteLoop(c, pos, data).value.1;
    SameProvider(c, d);
    var content' := Splice(content, pos, data);
    if TouchedLast(c.BlockSize(), 0, pos, pos + |data|) + c.BlockSize() < |content| {
      EarlyBytes(d, content');
      if Writer(d, content') {
        NumbersExact(d, content', 0);
        assert false;
      }
    }
  }

  /** What a write leaves of a stream that was only read. */
  ghost predicate WroteExisting(c: Cache, content: seq<byte>, pos: nat, data: seq<byte>, r: Result<nat>, d: Cache)
    requires c.Shape()
  {
    var spec := WriteLoop(c, pos, data);
    && (r.Ok? <==> spec.Ok?) && (r.Ok? ==> r.value == spec.value.0 && d == spec.value.1)
    && (ExistingWrite(c, content, pos, data) ==>
          && r == Ok(|data|) && SameContainer(c, d)
          && Wrote(d, Splice(content, pos, data), |content|, TouchedLast(c.BlockSize(), 0, pos, pos + |data|)))
  }

  /** A write to content without padding that was there before. */
  predicate ExistingWrite(c: Cache, content: seq<byte>, pos: nat, data: seq<byte>) {
    && !c.simple.provider.Padded() && content != [] && pos <= |content| && data != []
    && Fits(c.BlockSize(), pos + |data|)
  }

  lemma ExistingOutcome(c: Cache, content: seq<byte>, pos: nat, data: seq<byte>)
    requires Denotes(false, c, content)
    ensures c.Shape()
    ensures ExistingWrite(c, content, pos, data) ==>
              var r := WriteLoop(c, pos, data);
              && r.Ok? && r.value.0 == |data| && SameContainer(c, r.value.1)
              && Wrote(r.value.1, Splice(content, pos, data), |content|,
                       TouchedLast(c.BlockSize(), 0, pos, pos + |data|))
  {
    hide WriteLoop, Provider.Cipher, SameContainer, Wrote, TouchedLast;
    if ExistingWrite(c, content, pos, data) {
      ExistingWriteLoop(c, content, pos, data);
    }
  }

  lemma ExistingDone(c: Cache, content: seq<byte>, pos: nat, data: seq<byte>, r: Result<nat>, d: Cache)
    requires Denotes(false, c, content)
    requires c.Shape() && var spec := WriteLoop(c, pos, data);
                          (r.Ok? <==> spec.Ok?) && (r.Ok? ==> r.value == spec.value.0 && d == spec.value.1)
    ensures WroteExisting(c, content, pos, data, r, d)
  {
    hide WriteLoop, Provider.Cipher, SameContainer, Wrote, TouchedLast, ExistingWrite;
    ExistingOutcome(c, content, pos, data);
  }

  /** Flushing brings the rest of the content back into sight: the backing stream was never cut. */
  lemma EarlyFlush(c: Cache, content: seq<byte>)
    requires Early(c, content)
    ensures c.Flush().Ok? && Opened(c.Flush().value, content)
  {
    hide Provider.Cipher, Simple.WriteInternal;
    EarlyBytes(c, content);
    MiddleWritten(Marked(c), content);
    CipherLength(c.simple.provider, content, 0, true);
  }

  // ---------------------------------------------------------------- flushing what was only read

  /** The first cipher block of padded plain bytes is one of pure padding. */
  predicate OpensLikePadding(plain: seq<byte>) {
    plain == [] || (|plain| >= AES_BLOCK && forall i :: 0 <= i < AES_BLOCK ==> plain[i] == AES_BLOCK)
  }

  lemma OpeningPads(plain: seq<byte>)
    ensures OpensLikePadding(plain) <==> Pad(plain)[..AES_BLOCK] == Pad([])
  {
    var p := Pad(plain)[..AES_BLOCK];
    assert |Pad([])| == AES_BLOCK && forall i :: 0 <= i < AES_BLOCK ==> Pad([])[i] == AES_BLOCK;
    assert 0 < |plain| < AES_BLOCK ==> p[|plain|] == PadLength(|plain|) < AES_BLOCK;
    if p == Pad([]) && plain != [] {
      assert forall i :: 0 <= i < AES_BLOCK ==> plain[i] == p[i];
    }
  }

  /** An empty final block enciphers to the start of the ciphertext of short plain bytes only if those open so. */
  lemma EmptyFinal(p: Provider, plain: seq<byte>)
    requires p.Padded() && |plain| < CBC4K_BLOCK
    ensures |p.Cipher([], 0, true)| == AES_BLOCK <= |Whole(p, plain)|
    ensures Whole(p, plain)[..AES_BLOCK] == p.Cipher([], 0, true) <==> OpensLikePadding(plain)
  {
    hide CbcEncrypt, Iv4k, PadLength, OpensLikePadding;
    CipherLength(p, [], 0, true);
    CipherLength(p, plain, 0, true);
    OpeningPads(plain);
    var a, b, iv := Pad(plain)[..AES_BLOCK], Pad(plain)[AES_BLOCK..], Iv4k(p.key, 0);
    assert a + b == Pad(plain);
    CbcPrefix(p.key, a, b, iv);
    CbcRoundTrip(p.key, a, iv);
    CbcRoundTrip(p.key, Pad([]), iv);
  }

  /** Whether flushing a stream that was only read leaves its ciphertext alone. */
  predicate FlushKeeps(c: Cache, plain: seq<byte>) {
    c.simple.provider.Padded() && c.start == NO_BLOCK && c.simple.contentSize <= c.BlockSize()
    ==> OpensLikePadding(plain)
  }

  /** What a flush does to a stream that was only read. */
  ghost predicate FlushedReader(c: Cache, r: Result<Cache>, keeps: bool)
    requires c.Shape()
  {
    && (r.Ok? <==> !(c.simple.provider.mode.Cbc512NoPadding? && c.size == 0))
    && (r.Ok? ==> r.value.Shape() && SameContainer(c, r.value) && r.value.simple.contentSize == c.simple.contentSize
                  && (r.value.simple.Region() == c.simple.Region() <==> keeps))
  }

  lemma FlushWrites(c: Cache, start: nat, j: nat, keeps: bool)
    requires c.Shape() && start == (if c.start == NO_BLOCK then 0 else c.start) && c.CalculateBlockNumber(start) == j
    requires start + c.size <= c.simple.contentSize <= |c.simple.Region()|
    requires var p, data, last := c.simple.provider, c.buffer[..c.size], start + c.BlockSize() >= c.simple.contentSize;
             && (p.GetCipherTextSize(|data|).Ok? && p.Encrypt(data, j, last).Ok?
                 <==> !(p.mode.Cbc512NoPadding? && c.size == 0))
             && (keeps <==> Splice(c.simple.Region(), start, p.Cipher(data, j, last)) == c.simple.Region())
    ensures FlushedReader(c, c.Flush(), keeps)
  {
    hide Provider.Cipher, Simple.WriteInternal, Cache.CalculateBlockNumber, Provider.GetCipherTextSize,
      Provider.Encrypt;
    WriteAt(c.simple, c.buffer[..c.size], start, j, start + c.BlockSize() >= c.simple.contentSize);
  }

  /** Laying a slice over itself changes nothing. */
  lemma SpliceSame(region: seq<byte>, at: nat, data: seq<byte>)
    requires at + |data| <= |region|
    ensures Splice(region, at, data) == region <==> region[at..at + |data|] == data
  {
    if Splice(region, at, data) == region {
      assert Splice(region, at, data)[at..at + |data|] == data;
    }
  }

  lemma FlushUncached(c: Cache, plain: seq<byte>)
    requires Reader(c, plain) && c.start == NO_BLOCK
    ensures c.Shape() && FlushedReader(c, c.Flush(), FlushKeeps(c, plain))
  {
    hide Provider.Cipher, Cache.Flush, FlushedReader, OpensLikePadding;
    var p, last := c.simple.provider, c.BlockSize() >= c.simple.contentSize;
    assert c.buffer[..c.size] == [];
    SmallNumber(c, 0);
    CipherLength(p, plain, 0, true);
    CipherLength(p, [], 0, last);
    SpliceSame(c.simple.Region(), 0, p.Cipher([], 0, last));
    if p.Padded() && last {
      EmptyFinal(p, plain);
    }
    FlushWrites(c, 0, 0, FlushKeeps(c, plain));
  }

  lemma FlushCached(c: Cache, plain: seq<byte>)
    requires Reader(c, plain) && c.start != NO_BLOCK && c.start < c.simple.contentSize
    ensures c.Shape() && FlushedReader(c, c.Flush(), true)
  {
    hide Provider.Cipher, Cache.Flush, FlushedReader;
    var p, j, bs := c.simple.provider, c.start / c.BlockSize(), c.BlockSize();
    ReaderSize(c, plain);
    SmallNumber(c, c.start);
    BlockWithin(p, j, |plain|);
    CachedCipher(c, plain);
    var last := c.start + bs >= c.simple.contentSize;
    SpliceSame(c.simple.Region(), c.start, p.Cipher(c.buffer[..c.size], j, last));
    FlushWrites(c, c.start, j, true);
  }

  /** The cached block of a reader enciphers to what stands in the backing stream. */
  lemma CachedCipher(c: Cache, plain: seq<byte>)
    requires Reader(c, plain) && c.start != NO_BLOCK && c.start < c.simple.contentSize
    ensures var p, j, region := c.simple.provider, c.start / c.BlockSize(), c.simple.Region();
            var last := c.start + c.BlockSize() >= c.simple.contentSize;
            var cipher := p.Cipher(c.buffer[..c.size], j, last);
            && p.Encrypt(c.buffer[..c.size], j, last).Ok?
            && c.start + |cipher| <= |region| && region[c.start..c.start + |cipher|] == cipher
            && (!p.Padded() ==> c.size > 0)
  {
    hide Provider.Cipher;
    var p, j, bs := c.simple.provider, c.start / c.BlockSize(), c.BlockSize();
    ReaderSize(c, plain);
    BlockWithin(p, j, |plain|);
    if c.start + bs < c.simple.contentSize {
      SplitAround(p, plain, c.start, j);
    } else {
      SplitTail(p, plain, c.start, j);
      assert c.buffer[..c.size] == plain[c.start..];
    }
  }

  lemma FlushAtEnd(c: Cache, plain: seq<byte>)
    requires Reader(c, plain) && c.start != NO_BLOCK && c.start >= c.simple.contentSize
    ensures c.Shape() && FlushedReader(c, c.Flush(), true)
  {
    hide Provider.Cipher, Cache.Flush, FlushedReader;
    var p, j := c.simple.provider, c.start / c.BlockSize();
    ReaderSize(c, plain);
    SmallNumber(c, c.start);
    assert c.size == 0 && !p.Padded() && c.buffer[..c.size] == [];
    CipherLength(p, [], j, true);
    SpliceSame(c.simple.Region(), c.start, p.Cipher([], j, true));
    FlushWrites(c, c.start, j, true);
  }

  /**
   Flushing a stream that was only read keeps its ciphertext, unless nothing is cached, the mode is padded and the
   ciphertext fits one block: then an empty final block is enciphered over its first 16 bytes, and changes them exactly
   if the plain bytes do not open like padding.
   */
  lemma ReaderFlushExact(c: Cache, plain: seq<byte>)
    requires Reader(c, plain)
    ensures c.Shape() && FlushedReader(c, c.Flush(), FlushKeeps(c, plain))
  {
    hide Reader, FlushedReader, Cache.Flush, OpensLikePadding;
    if c.start == NO_BLOCK {
      FlushUncached(c, plain);
    } else if c.start >= c.simple.contentSize {
      FlushAtEnd(c, plain);
    } else {
      FlushCached(c, plain);
    }
  }

  lemma FlushOutcome(c: Cache, plain: seq<byte>)
    requires Denotes(false, c, plain)
    ensures c.Shape() && FlushedReader(c, c.Flush(), FlushKeeps(c, plain))
  {
    hide Reader, FlushedReader, Cache.Flush, FlushKeeps;
    ReaderFlushExact(c, plain);
  }
}
