/**
 The read and write loops of the random-access stream as functions on caches, and what they do from every state of a
 writer and of a reader: where the run goes through, and what happens where it does not.
 */
module LoopTheory {
  import opened Bytes
  import opened Wrappers
  import opened Providers
  import opened CacheModel
  import opened CacheTheory
  import opened ReaderTheory
  import opened ReloadTheory
  import opened RunTheory

  /** The read loop: the bytes read, and the cache afterwards. */
  function ReadLoop(c: Cache, pos: nat, n: nat): (r: Result<(seq<byte>, Cache)>)
    requires c.Shape()
    ensures r.Ok? ==> r.value.1.Shape()
    decreases n
  {
    if n == 0 || pos >= c.GetSizeInternal() then Ok(([], c))
    else
      var m :- c.UpdateBlock(pos);
      var front := m.ReadFromBlock(pos, n);
      if front == [] then Ok(([], m))
      else
        var rest :- ReadLoop(m, pos + |front|, n - |front|);
        Ok((front + rest.0, rest.1))
  }

  /** The write loop: how many bytes were written, and the cache afterwards. */
  function WriteLoop(c: Cache, pos: nat, data: seq<byte>): (r: Result<(nat, Cache)>)
    requires c.Shape()
    ensures r.Ok? ==> r.value.1.Shape()
    decreases |data|
  {
    if data == [] then Ok((0, c))
    else
      var m :- c.UpdateBlock(pos);
      var k := m.Room(pos, |data|);
      if k == 0 then Ok((0, m))
      else
        var rest :- WriteLoop(m.WriteToBlock(data, pos), pos + k, data[k..]);
        Ok((k + rest.0, rest.1))
  }

  // ---------------------------------------------------------------- where the run goes through

  /** The last block that a run over [pos, to) touches, or the block that was cached. */
  function TouchedLast(bs: nat, start: nat, pos: nat, to: nat): nat
    requires bs > 0
  {
    if pos < to then (to - 1) / bs * bs else start
  }

  lemma TouchedStep(bs: nat, start: nat, last: nat, pos: nat, next: nat, to: nat)
    requires bs > 0 && pos < next <= to && last == (next - 1) / bs * bs
    ensures TouchedLast(bs, last, next, to) == TouchedLast(bs, start, pos, to)
  {
  }

  lemma TouchedNothing(bs: nat, start: nat, pos: nat, to: nat)
    requires bs > 0 && pos >= to
    ensures TouchedLast(bs, start, pos, to) == start
  {
  }

  lemma ArrayReadSplits(c: seq<byte>, pos: nat, n: nat, k: nat)
    requires k <= n && pos + k <= |c|
    ensures ArrayRead(c, pos, n) == c[pos..pos + k] + ArrayRead(c, pos + k, n - k)
  {
  }

  lemma ArrayReadNothing(c: seq<byte>, pos: nat, n: nat)
    requires n == 0 || pos >= |c|
    ensures ArrayRead(c, pos, n) == []
  {
  }

  /** A writer reads what a plain array reads. */
  lemma {:induction false} ReadLoopRuns(c: Cache, content: seq<byte>, pos: nat, n: nat)
    requires Writer(c, content) && CanRun(c, |content|, pos, Min(pos + n, |content|))
    ensures ReadLoop(c, pos, n).Ok?
    ensures var (data, d) := ReadLoop(c, pos, n).value;
            && data == ArrayRead(content, pos, n)
            && Writer(d, content) && SameContainer(c, d)
            && d.start == TouchedLast(c.BlockSize(), c.start, pos, Min(pos + n, |content|))
            && (pos >= Min(pos + n, |content|) ==> d == c)
    decreases n
  {
    hide Provider.Cipher, TailPending, Committed, Unloaded, Emptied, Cache.UpdateBlock, Cache.ReadFromBlock, CanRun,
      TouchedLast, SameContainer, Cache.BlockSize, ArrayRead;
    NumbersExact(c, content, 0);
    var to := Min(pos + n, |content|);
    if n == 0 || pos >= |content| {
      SameContainerReflexive(c);
      ArrayReadNothing(content, pos, n);
      TouchedNothing(c.BlockSize(), c.start, pos, to);
    } else {
      ReadRound(c, content, pos, n);
      var m := c.UpdateBlock(pos).value;
      SameProvider(c, m);
      var front := m.ReadFromBlock(pos, n);
      ArrayReadSplits(content, pos, n, |front|);
      TouchedStep(c.BlockSize(), c.start, m.start, pos, pos + |front|, to);
      ReadLoopRuns(m, content, pos + |front|, n - |front|);
      SameContainerTransitive(c, m, ReadLoop(m, pos + |front|, n - |front|).value.1);
    }
  }

  /** A reader reads what a plain array of the plain bytes reads, from any cache state. */
  lemma {:induction false} ReadLoopReads(c: Cache, plain: seq<byte>, pos: nat, n: nat)
    requires Denotes(false, c, plain)
    ensures ReadLoop(c, pos, n).Ok?
    ensures var (data, d) := ReadLoop(c, pos, n).value;
            data == ArrayRead(plain, pos, n) && Denotes(false, d, plain) && d.simple == c.simple && SameContainer(c, d)
    decreases n
  {
    hide Provider.Cipher, Cache.UpdateBlock, Cache.ReadFromBlock, Cache.GetSizeInternal, ArrayRead, SameContainer,
      Provider.Legal, Whole;
    ReportedSize(false, c, plain);
    if n == 0 || pos >= c.GetSizeInternal() {
      SameContainerReflexive(c);
      ArrayReadNothing(plain, pos, n);
    } else {
      ReaderSizeIs(c, plain);
      ReadRoundReader(c, plain, pos, n);
      var m := c.UpdateBlock(pos).value;
      var front := m.ReadFromBlock(pos, n);
      ReaderMoved(c, m);
      if front != [] {
        ReadLoopReads(m, plain, pos + |front|, n - |front|);
        ArrayReadSplits(plain, pos, n, |front|);
      } else {
        ArrayReadNothing(plain, pos, n);
      }
    }
  }

  lemma ReaderMoved(c: Cache, m: Cache)
    requires m.simple == c.simple && |m.buffer| == |c.buffer|
    ensures SameContainer(c, m)
    ensures forall d: Cache :: d.simple == m.simple && SameContainer(m, d) ==> SameContainer(c, d)
  {
  }

  lemma ReaderSizeIs(c: Cache, plain: seq<byte>)
    requires Reader(c, plain)
    ensures c.GetSizeInternal() == c.simple.contentSize
  {
    hide Provider.Cipher;
  }

  /** A write that goes through is the write into a plain array. */
  lemma {:induction false} WriteLoopRuns(c: Cache, content: seq<byte>, pos: nat, data: seq<byte>)
    requires Writer(c, content) && pos <= |content| && Fits(c.BlockSize(), pos + |data|)
    requires CanRun(c, |content|, pos, pos + |data|)
    ensures WriteLoop(c, pos, data).Ok?
    ensures var (n, d) := WriteLoop(c, pos, data).value;
            && n == |data|
            && Writer(d, Splice(content, pos, data)) && SameContainer(c, d)
            && d.start == TouchedLast(c.BlockSize(), c.start, pos, pos + |data|)
            && (data == [] ==> d == c)
    decreases |data|
  {
    hide TailPending, Committed, Unloaded, Emptied, Cache.UpdateBlock, Cache.WriteToBlock, Cache.Room, CanRun,
      TouchedLast, SameContainer, Cache.BlockSize;
    if data == [] {
      SameContainerReflexive(c);
      assert data[..0] == data;
      SpliceNothing(content, pos, data);
      TouchedNothing(c.BlockSize(), c.start, pos, pos);
    } else {
      WriteRound(c, content, pos, data);
      var m := c.UpdateBlock(pos).value;
      var k, d := m.Room(pos, |data|), m.WriteToBlock(data, pos);
      SameProvider(c, d);
      TouchedStep(c.BlockSize(), c.start, d.start, pos, pos + k, pos + |data|);
      WriteLoopRuns(d, Splice(content, pos, data[..k]), pos + k, data[k..]);
      SpliceJoins(content, pos, data, k);
      SameContainerTransitive(c, d, WriteLoop(d, pos + k, data[k..]).value.1);
    }
  }

  // ---------------------------------------------------------------- reads that come back to a padded last block

  /** Once the last block has been reloaded, a read gets what came back of it. */
  lemma LossyRead(m: Cache, rest: seq<byte>, content: seq<byte>, pos: nat, n: nat)
    requires Lossy(m, rest, content) && Fits(m.BlockSize(), |content|)
    requires LastStart(m.BlockSize(), |content|) <= pos < |content|
    ensures m.GetSizeInternal() == |content| && m.UpdateBlock(pos) == Ok(m)
    ensures m.ReadFromBlock(pos, n) == ArrayRead(content[..m.start + m.size], pos, n)
  {
    hide Provider.Cipher, Reloads, Reloaded;
    var bs := m.BlockSize();
    SmallNumber(m, pos);
    BlockOf(bs, pos);
    BlockUnique(bs, m.start / bs, pos);
    if pos < m.start + m.size {
      var k := Min(n, m.start + m.size - pos);
      ReloadedBytes(m, rest, content);
      CachedSlice(m, content, pos, k);
    }
  }

  lemma ReloadedBytes(m: Cache, rest: seq<byte>, content: seq<byte>)
    requires Lossy(m, rest, content)
    ensures m.start + m.size <= |content| && m.size <= |m.buffer|
    ensures m.buffer[..m.size] == content[m.start..m.start + m.size]
  {
    hide Provider.Cipher;
  }

  lemma {:induction false} LossyReadLoop(m: Cache, rest: seq<byte>, content: seq<byte>, pos: nat, n: nat)
    requires Lossy(m, rest, content) && Fits(m.BlockSize(), |content|)
    requires LastStart(m.BlockSize(), |content|) <= pos
    ensures ReadLoop(m, pos, n) == Ok((ArrayRead(content[..m.start + m.size], pos, n), m))
    decreases n
  {
    hide Lossy, Cache.UpdateBlock, Cache.ReadFromBlock, Cache.GetSizeInternal;
    LossyBounds(m, rest, content);
    if n > 0 && pos < |content| {
      LossyRead(m, rest, content, pos, n);
      var front := m.ReadFromBlock(pos, n);
      if front != [] {
        LossyReadLoop(m, rest, content, pos + |front|, n - |front|);
        assert front + ArrayRead(content[..m.start + m.size], pos + |front|, n - |front|)
            == ArrayRead(content[..m.start + m.size], pos, n);
      }
    }
  }

  lemma LossyBounds(m: Cache, rest: seq<byte>, content: seq<byte>)
    requires Lossy(m, rest, content)
    ensures m.Shape() && m.start + m.size < |content| && m.GetSizeInternal() == |content|
  {
    hide Provider.Cipher;
  }

  /** How far a read can get when the last block has to come back. */
  function Recovered(bs: nat, content: seq<byte>): (r: nat)
    requires (bs == 512 || bs == 4096) && Reloads(bs, content)
    ensures LastStart(bs, |content|) <= r < |content|
  {
    LastStart(bs, |content|) + |Reloaded(bs, content)|
  }

  /** What a read returns where the run does not go through. */
  ghost predicate LostRead(c: Cache, r: Result<(seq<byte>, Cache)>, content: seq<byte>, pos: nat, n: nat) {
    if !c.simple.provider.Padded() || !Reloads(c.BlockSize(), content) then r.Err?
    else
      && r.Ok? && r.value.1.Shape()
      && r.value.0 == ArrayRead(content[..Recovered(c.BlockSize(), content)], pos, n)
      && Clean(r.value.1, content) && SameContainer(c, r.value.1)
  }

  lemma LostReadHere(c: Cache, content: seq<byte>, pos: nat, n: nat)
    requires Writer(c, content) && pos < |content| && n > 0 && !CanMove(c, |content|, pos)
    ensures LostRead(c, ReadLoop(c, pos, n), content, pos, n)
  {
    hide Provider.Cipher, TailPending, Committed, Unloaded, Emptied, CanMove, Cache.UpdateBlock, Cache.ReadFromBlock,
      Cache.GetSizeInternal, Lossy, Reloads, Clean;
    var bs := c.BlockSize();
    NumbersExact(c, content, 0);
    MoveExact(c, content, pos);
    BlockOf(bs, pos);
    if c.UpdateBlock(pos).Ok? {
      var m := c.UpdateBlock(pos).value;
      LossyBounds(m, Rest(c, content), content);
      LossyIs(m, Rest(c, content), content);
      LossyRead(m, Rest(c, content), content, pos, n);
      LossyReadLoop(m, Rest(c, content), content, pos, n);
      assert ReadLoop(c, pos, n) == ReadLoop(m, pos, n);
    }
  }

  lemma LossyIs(m: Cache, rest: seq<byte>, content: seq<byte>)
    requires Lossy(m, rest, content)
    ensures m.Shape() && Clean(m, content) && Reloads(m.BlockSize(), content)
    ensures m.start + m.size == Recovered(m.BlockSize(), content) && m.start == LastStart(m.BlockSize(), |content|)
  {
    hide Provider.Cipher;
  }

  /** A run over several blocks is on its way to the last one. */
  lemma ApproachesLast(c: Cache, m: Cache, size: nat, pos: nat, next: nat, to: nat)
    requires c.BlockSize() == m.BlockSize() && c.simple.provider.Padded() && m.simple.provider.Padded()
    requires pos < size && pos < to && CanMove(c, size, pos) && !CanRun(c, size, pos, to)
    requires m.start == pos / c.BlockSize() * c.BlockSize() && next == m.start + c.BlockSize()
    ensures pos < next <= LastStart(c.BlockSize(), size) < to
    ensures !CanRun(m, size, next, to)
  {
    hide Provider.Legal;
    var bs, s := c.BlockSize(), LastStart(c.BlockSize(), size);
    BlockOf(bs, pos);
    BlockOf(bs, size - 1);
    NextBlock(bs, m.start) by {
      BlockUnique(bs, pos / bs, m.start);
    }
    StartsApart(bs, m.start, s);
    if next < s {
      assert Crosses(bs, size, next, to);
    }
  }

  /** Different block starts are a block apart. */
  lemma StartsApart(bs: nat, a: nat, b: nat)
    requires (bs == 512 || bs == 4096) && OnBlock(bs, b) && a / bs * bs == a && a < b
    ensures a + bs <= b
  {
    if bs == 512 {
      assert a / 512 < b / 512;
    } else {
      assert a / 4096 < b / 4096;
    }
  }

  /**
   A read whose run does not go through. Unpadded it throws. Padded it throws unless the last block ends like padding;
   otherwise it returns what a plain array would that lacks the bytes which look like padding.
   */
  lemma {:induction false} ReadLoopLost(c: Cache, content: seq<byte>, pos: nat, n: nat)
    requires Writer(c, content) && !CanRun(c, |content|, pos, Min(pos + n, |content|))
    ensures LostRead(c, ReadLoop(c, pos, n), content, pos, n)
    decreases n
  {
    hide Provider.Cipher, TailPending, Committed, Unloaded, Emptied, Cache.UpdateBlock, Cache.ReadFromBlock,
      CanMove, LostRead, Crosses;
    var to := Min(pos + n, |content|);
    if !CanMove(c, |content|, pos) {
      LostReadHere(c, content, pos, n);
    } else {
      ReadMove(c, content, pos, n);
      var m := c.UpdateBlock(pos).value;
      var front := m.ReadFromBlock(pos, n);
      CrossesPadded(c, |content|, pos, to);
      ApproachesLast(c, m, |content|, pos, m.start + c.BlockSize(), to);
      ReadToEnd(c, content, m, pos, n);
      ReadLoopLost(m, content, pos + |front|, n - |front|);
      NumbersExact(c, content, 0);
      LostReadLater(c, m, content, pos, n, front);
    }
  }

  lemma CrossesPadded(c: Cache, size: nat, pos: nat, to: nat)
    requires CanMove(c, size, pos) && !CanRun(c, size, pos, to)
    ensures c.simple.provider.Padded() && pos < to && pos < size
  {
    hide CanMove;
    BlockOf(c.BlockSize(), size - 1);
  }

  /** A block before the last is read to its end. */
  lemma ReadToEnd(c: Cache, content: seq<byte>, m: Cache, pos: nat, n: nat)
    requires Writer(m, content) && c.BlockSize() == m.BlockSize()
    requires m.start == pos / c.BlockSize() * c.BlockSize() && pos < m.start + c.BlockSize() < Min(pos + n, |content|)
    ensures |m.ReadFromBlock(pos, n)| == m.start + c.BlockSize() - pos
  {
    hide Provider.Cipher;
    BlockOf(c.BlockSize(), pos);
  }

  lemma LostReadLater(c: Cache, m: Cache, content: seq<byte>, pos: nat, n: nat, front: seq<byte>)
    requires c.Shape() && m.Shape() && SameContainer(c, m) && c.UpdateBlock(pos) == Ok(m)
    requires front != [] && front == m.ReadFromBlock(pos, n) && |front| <= n && pos < c.GetSizeInternal()
    requires pos + |front| <= LastStart(c.BlockSize(), |content|) && front == content[pos..pos + |front|]
    requires LostRead(m, ReadLoop(m, pos + |front|, n - |front|), content, pos + |front|, n - |front|)
    ensures LostRead(c, ReadLoop(c, pos, n), content, pos, n)
  {
    hide Cache.UpdateBlock, Cache.ReadFromBlock, Cache.GetSizeInternal, Clean, Reloads, SameContainer;
    SameProvider(c, m);
    if c.simple.provider.Padded() && Reloads(c.BlockSize(), content) {
      var known := content[..Recovered(c.BlockSize(), content)];
      assert known[pos..pos + |front|] == front;
      ArrayReadSplits(known, pos, n, |front|);
      SameContainerTransitive(c, m, ReadLoop(m, pos + |front|, n - |front|).value.1);
    }
  }

  lemma SameProvider(c: Cache, m: Cache)
    requires SameContainer(c, m)
    ensures c.simple.provider == m.simple.provider && c.BlockSize() == m.BlockSize()
  {
  }

  /** When a read of a writer's stream returns what a plain array returns. */
  predicate ReadsBack(c: Cache, content: seq<byte>, pos: nat, n: nat) {
    || CanRun(c, |content|, pos, Min(pos + n, |content|))
    || ( && c.simple.provider.Padded() && Reloads(c.BlockSize(), content)
         && Min(pos + n, |content|) <= Recovered(c.BlockSize(), content))
  }

  /** Exactly then. */
  lemma ReadExact(c: Cache, content: seq<byte>, pos: nat, n: nat)
    requires Writer(c, content)
    ensures ReadsBack(c, content, pos, n)
       <==> ReadLoop(c, pos, n).Ok? && ReadLoop(c, pos, n).value.0 == ArrayRead(content, pos, n)
  {
    hide Writer, ReadLoop, Reloads, CanMove, Clean, Crosses;
    if CanRun(c, |content|, pos, Min(pos + n, |content|)) {
      ReadLoopRuns(c, content, pos, n);
    } else {
      ReadLoopLost(c, content, pos, n);
      if c.simple.provider.Padded() && Reloads(c.BlockSize(), content) {
        ShorterRead(content, Recovered(c.BlockSize(), content), pos, n);
      }
    }
  }

  /** Reading a prefix gives the same exactly when the read ends within it. */
  lemma ShorterRead(content: seq<byte>, k: nat, pos: nat, n: nat)
    requires k < |content| && pos < Min(pos + n, |content|)
    ensures ArrayRead(content[..k], pos, n) == ArrayRead(content, pos, n) <==> Min(pos + n, |content|) <= k
  {
    if Min(pos + n, |content|) > k {
      assert |ArrayRead(content[..k], pos, n)| < |ArrayRead(content, pos, n)|;
    }
  }

  // ---------------------------------------------------------------- writes that come back to a padded last block

  /**
   The content as the cache sees it after the reload: the bytes that looked like padding are replaced by what the
   platform left behind the plain text.
   */
  function Seen(bs: nat, rest: seq<byte>, content: seq<byte>): (r: seq<byte>)
    requires (bs == 512 || bs == 4096) && Reloads(bs, content) && |rest| == bs - |Reloaded(bs, content)|
    ensures |r| == |content|
    ensures r[..Recovered(bs, content)] == content[..Recovered(bs, content)]
  {
    var s, u := LastStart(bs, |content|), Reloaded(bs, content);
    assert content[..s] + u == content[..s + |u|];
    content[..s + |u|] + rest[..|content| - s - |u|]
  }

  /** The rest of the content from the last block on, as the reloaded buffer has it. */
  lemma SeenTail(m: Cache, rest: seq<byte>, content: seq<byte>)
    requires Lossy(m, rest, content)
    ensures var seen := Seen(m.BlockSize(), rest, content);
            && m.start <= |content| <= m.start + m.BlockSize()
            && seen[..m.start] == content[..m.start]
            && seen[m.start..] == m.buffer[..|content| - m.start]
  {
    hide Provider.Cipher, Clean;
    var bs := m.BlockSize();
    var u, seen := Reloaded(bs, content), Seen(bs, rest, content);
    assert m.buffer == u + rest;
    assert seen[m.start..] == u + rest[..|content| - m.start - |u|];
  }

  /** A write that covers the rest of the reloaded block leaves a writer again, for the content as it was seen. */
  lemma LossyWriteCovers(m: Cache, rest: seq<byte>, content: seq<byte>, pos: nat, data: seq<byte>)
    requires Lossy(m, rest, content) && data != [] && Fits(m.BlockSize(), pos + |data|)
    requires Fits(m.BlockSize(), |content|)
    requires m.start <= pos <= |content| && pos < m.start + m.BlockSize()
    requires pos + m.Room(pos, |data|) >= |content|
    ensures Writer(m.WriteToBlock(data, pos),
                   Splice(Seen(m.BlockSize(), rest, content), pos, data[..m.Room(pos, |data|)]))
  {
    hide Provider.Cipher, Seen;
    var k, d, seen := m.Room(pos, |data|), m.WriteToBlock(data, pos), Seen(m.BlockSize(), rest, content);
    var content' := Splice(seen, pos, data[..k]);
    SeenTail(m, rest, content);
    LossyIs(m, rest, content);
    PrefixOfWhole(m, content);
    var full := m.(size := |content| - m.start);
    TailBytes(full, seen, data[..k], pos);
    assert content'[..m.start] == seen[..m.start];
    assert TailPending(d, content');
  }

  lemma PrefixOfWhole(m: Cache, content: seq<byte>)
    requires m.Shape() && Clean(m, content) && OnBlock(m.BlockSize(), m.start) && m.start <= |content|
    ensures var region := m.simple.Region();
            && m.start <= |region| == m.simple.provider.CipherSize(|content|)
            && region[..m.start] == m.simple.provider.Cipher(content[..m.start], 0, false)
  {
    hide Provider.Cipher;
    SplitTail(m.simple.provider, content, m.start, m.start / m.BlockSize());
    CipherLength(m.simple.provider, content, 0, true);
  }

  /** A write that ends before the old end leaves a shorter stream: the bytes behind it are lost. */
  lemma LossyWriteCuts(m: Cache, rest: seq<byte>, content: seq<byte>, pos: nat, data: seq<byte>)
    requires Lossy(m, rest, content) && data != [] && Fits(m.BlockSize(), |content|)
    requires m.start <= pos && pos + |data| < |content|
    ensures m.Room(pos, |data|) == |data|
    ensures var d := m.WriteToBlock(data, pos);
            d.Shape() && d.GetSizeInternal() == Max(Recovered(m.BlockSize(), content), pos + |data|) < |content|
  {
    hide Provider.Cipher;
    LossyIs(m, rest, content);
    SmallNumber(m, m.start);
    BlockOf(m.BlockSize(), m.start);
  }

  /** What a write leaves where the run does not go through. */
  ghost predicate LostWrite(c: Cache, r: Result<(nat, Cache)>, content: seq<byte>, pos: nat, data: seq<byte>)
    requires c.Shape() && pos <= |content|
  {
    if !c.simple.provider.Padded() || !Reloads(c.BlockSize(), content) then r.Err?
    else
      && r.Ok? && r.value.0 == |data| && r.value.1.Shape() && SameContainer(c, r.value.1)
      && if pos + |data| >= |content| then Covered(c, r.value.1, content, pos, data)
         else r.value.1.GetSizeInternal() == Max(Recovered(c.BlockSize(), content), pos + |data|)
  }

  /** The write went over the old end; the stream goes on from the content as the cache saw it. */
  ghost predicate Covered(c: Cache, d: Cache, content: seq<byte>, pos: nat, data: seq<byte>)
    requires c.Shape() && pos <= |content| && Reloads(c.BlockSize(), content)
  {
    && Writer(d, Splice(Seen(c.BlockSize(), Rest(c, content), content), pos, data))
    && d.start == TouchedLast(c.BlockSize(), c.start, pos, pos + |data|)
  }

  lemma LostWriteHere(c: Cache, content: seq<byte>, pos: nat, data: seq<byte>)
    requires Writer(c, content) && pos <= |content| && data != [] && Fits(c.BlockSize(), pos + |data|)
    requires !CanMove(c, |content|, pos)
    ensures LostWrite(c, WriteLoop(c, pos, data), content, pos, data)
  {
    hide Provider.Cipher, TailPending, Committed, Unloaded, Emptied, CanMove, Cache.UpdateBlock, Cache.WriteToBlock,
      Cache.GetSizeInternal, Lossy, Reloads, Clean, LostWrite;
    MoveExact(c, content, pos);
    if c.simple.provider.Padded() && Reloads(c.BlockSize(), content) {
      var m := c.UpdateBlock(pos).value;
      LossyIs(m, Rest(c, content), content);
      BlockOf(c.BlockSize(), pos);
      if pos + m.Room(pos, |data|) >= |content| {
        LostWriteCovers(c, m, content, pos, data);
      } else {
        LossyWriteCuts(m, Rest(c, content), content, pos, data);
        LostWriteCuts(c, m, content, pos, data);
      }
    } else {
      LostWriteErr(c, content, pos, data);
    }
  }

  lemma LostWriteErr(c: Cache, content: seq<byte>, pos: nat, data: seq<byte>)
    requires c.Shape() && pos <= |content| && data != [] && c.UpdateBlock(pos).Err?
    requires !c.simple.provider.Padded() || !Reloads(c.BlockSize(), content)
    ensures LostWrite(c, WriteLoop(c, pos, data), content, pos, data)
  {
    hide Cache.UpdateBlock, Reloads;
  }

  lemma LostWriteCuts(c: Cache, m: Cache, content: seq<byte>, pos: nat, data: seq<byte>)
    requires c.Shape() && m.Shape() && c.UpdateBlock(pos) == Ok(m) && SameContainer(c, m) && pos <= |content|
    requires data != [] && c.simple.provider.Padded() && Reloads(c.BlockSize(), content)
    requires m.Room(pos, |data|) == |data| && pos + |data| < |content|
    requires m.WriteToBlock(data, pos).GetSizeInternal() == Max(Recovered(c.BlockSize(), content), pos + |data|)
    ensures LostWrite(c, WriteLoop(c, pos, data), content, pos, data)
  {
    hide Cache.UpdateBlock, Cache.GetSizeInternal, Reloads, Recovered, Cache.Room;
    assert data[|data|..] == [];
    WrittenContainer(m, data, pos);
  }

  lemma WrittenContainer(m: Cache, data: seq<byte>, pos: nat)
    requires m.Shape()
    ensures m.WriteToBlock(data, pos).simple == m.simple && m.WriteToBlock(data, pos).start == m.start
    ensures m.WriteToBlock(data, pos).BlockSize() == m.BlockSize()
    ensures |m.WriteToBlock(data, pos).buffer| == |m.buffer|
  {
  }

  /** The cache has come back to the last block. */
  ghost predicate CameBack(c: Cache, m: Cache, content: seq<byte>, pos: nat) {
    && c.Shape() && c.UpdateBlock(pos) == Ok(m) && SameContainer(c, m)
    && c.simple.provider.Padded() && Reloads(c.BlockSize(), content) && Lossy(m, Rest(c, content), content)
    && m.start == pos / c.BlockSize() * c.BlockSize() && Fits(c.BlockSize(), |content|)
  }

  lemma CameBackIs(c: Cache, m: Cache, content: seq<byte>, pos: nat)
    requires CameBack(c, m, content, pos)
    ensures c.Shape() && m.Shape() && Reloads(c.BlockSize(), content) && c.BlockSize() == m.BlockSize()
    ensures c.UpdateBlock(pos) == Ok(m) && SameContainer(c, m) && Lossy(m, Rest(c, content), content)
    ensures m.start == pos / c.BlockSize() * c.BlockSize() && m.start <= |content|
    ensures Fits(c.BlockSize(), |content|) && c.simple.provider.Padded()
    ensures |Rest(c, content)| == c.BlockSize() - |Reloaded(c.BlockSize(), content)|
  {
    hide Provider.Cipher, Reloads, Rest, Reloaded, Clean, Cache.UpdateBlock;
  }

  lemma LostWriteCovers(c: Cache, m: Cache, content: seq<byte>, pos: nat, data: seq<byte>)
    requires c.Shape() && CameBack(c, m, content, pos) && pos <= |content| && data != []
    requires Fits(c.BlockSize(), pos + |data|) && pos + m.Room(pos, |data|) >= |content|
    ensures LostWrite(c, WriteLoop(c, pos, data), content, pos, data)
  {
    hide Provider.Cipher, TailPending, Committed, Unloaded, Emptied, Cache.UpdateBlock, Cache.WriteToBlock,
      Cache.GetSizeInternal, Lossy, Reloads, Seen, SameContainer, CanRun, Cache.Room, Cache.BlockSize, Covered,
      TouchedLast, Clean, Recovered, LastStart, WriteLoop, Rest, CameBack, LostWrite, Writer;
    CameBackIs(c, m, content, pos);
    LossyIs(m, Rest(c, content), content);
    var k, d := m.Room(pos, |data|), m.WriteToBlock(data, pos);
    RoomIs(m, pos, |data|);
    WrittenContainer(m, data, pos);
    LossyWriteCovers(m, Rest(c, content), content, pos, data);
    assert m.BlockSize() == c.BlockSize() && d.BlockSize() == c.BlockSize();
    assert d.start == (pos + k - 1) / c.BlockSize() * c.BlockSize();
    CoversRest(c, d, content, pos, data, k);
    var rest := WriteLoop(d, pos + k, data[k..]);
    ContainerKept(c, m, d, rest.value.1);
    WriteLoopStep(c, m, d, pos, data, k);
    CoversAll(c, content, pos, data, k, rest, WriteLoop(c, pos, data));
  }

  lemma CoversAll(c: Cache, content: seq<byte>, pos: nat, data: seq<byte>, k: nat, rest: Result<(nat, Cache)>,
      all: Result<(nat, Cache)>)
    requires c.Shape() && pos <= |content| <= pos + |data| && k <= |data| && Reloads(c.BlockSize(), content)
    requires rest.Ok? && rest.value.0 == |data| - k && rest.value.1.Shape() && SameContainer(c, rest.value.1)
    requires Covered(c, rest.value.1, content, pos, data) && c.simple.provider.Padded()
    requires all.Ok? && all.value.0 == k + rest.value.0 && all.value.1 == rest.value.1
    ensures LostWrite(c, all, content, pos, data)
  {
    hide Covered, Reloads, SameContainer, Recovered, Cache.GetSizeInternal;
  }

  /** One round of the loop, by its parts. */
  lemma WriteLoopStep(c: Cache, m: Cache, d: Cache, pos: nat, data: seq<byte>, k: nat)
    requires c.Shape() && m.Shape() && d.Shape() && 0 < k <= |data| && c.UpdateBlock(pos) == Ok(m)
    requires k == m.Room(pos, |data|) && d == m.WriteToBlock(data, pos)
    ensures var all, rest := WriteLoop(c, pos, data), WriteLoop(d, pos + k, data[k..]);
            && (all.Ok? <==> rest.Ok?)
            && (rest.Ok? ==> all.value.0 == k + rest.value.0 && all.value.1 == rest.value.1)
  {
    hide Cache.UpdateBlock, Cache.WriteToBlock, Cache.Room;
  }

  lemma RoomIs(m: Cache, pos: nat, n: nat)
    requires m.start == pos / m.BlockSize() * m.BlockSize() && n > 0
    ensures m.start <= pos < m.start + m.BlockSize() && 0 < m.Room(pos, n) <= n
    ensures m.start == (pos + m.Room(pos, n) - 1) / m.BlockSize() * m.BlockSize()
  {
    BlockOf(m.BlockSize(), pos);
    BlockUnique(m.BlockSize(), pos / m.BlockSize(), pos + m.Room(pos, n) - 1);
  }

  /** A write that has reached the end of the content goes on. */
  lemma CoversRest(c: Cache, d: Cache, content: seq<byte>, pos: nat, data: seq<byte>, k: nat)
    requires c.Shape() && c.BlockSize() == d.BlockSize() && Reloads(c.BlockSize(), content)
    requires pos <= |content| <= pos + k && 0 < k <= |data| && Fits(d.BlockSize(), pos + |data|)
    requires Writer(d, Splice(Seen(c.BlockSize(), Rest(c, content), content), pos, data[..k]))
    requires d.start == (pos + k - 1) / d.BlockSize() * d.BlockSize()
    ensures WriteLoop(d, pos + k, data[k..]).Ok?
    ensures var (n, e) := WriteLoop(d, pos + k, data[k..]).value;
            n == |data| - k && Covered(c, e, content, pos, data) && SameContainer(d, e)
  {
    hide TailPending, Committed, Unloaded, Emptied, SameContainer, CanRun, WriteLoop, Seen, TouchedLast, Reloads;
    var seen := Seen(c.BlockSize(), Rest(c, content), content);
    var written := Splice(seen, pos, data[..k]);
    TailCanMove(d, written);
    WriteLoopRuns(d, written, pos + k, data[k..]);
    SpliceJoins(seen, pos, data, k);
    TouchedStep(c.BlockSize(), c.start, d.start, pos, pos + k, pos + |data|);
  }

  lemma ContainerKept(c: Cache, m: Cache, d: Cache, e: Cache)
    requires SameContainer(c, m) && m.simple == d.simple && |m.buffer| == |d.buffer| && SameContainer(d, e)
    requires c.simple.Shape() && d.simple.Shape() && e.simple.Shape()
    ensures SameContainer(c, e)
  {
  }

  /** The block before the last is written to its end, and the last block is as it was. */
  lemma TailUntouched(bs: nat, content: seq<byte>, pos: nat, data: seq<byte>)
    requires bs == 512 || bs == 4096
    requires pos + |data| <= LastStart(bs, |content|)
    ensures var content' := Splice(content, pos, data);
            && |content'| == |content| && TailOf(bs, content') == TailOf(bs, content)
            && Reloads(bs, content') == Reloads(bs, content)
            && (Reloads(bs, content) ==> Reloaded(bs, content') == Reloaded(bs, content)
                                         && Recovered(bs, content') == Recovered(bs, content))
  {
    hide Reloads;
    assert TailOf(bs, Splice(content, pos, data)) == TailOf(bs, content);
    SameLastReloads(bs, content, Splice(content, pos, data));
  }

  lemma SameLastReloads(bs: nat, a: seq<byte>, b: seq<byte>)
    requires (bs == 512 || bs == 4096) && |a| == |b| && TailOf(bs, a) == TailOf(bs, b)
    ensures Reloads(bs, a) == Reloads(bs, b)
    ensures Reloads(bs, a) ==> Reloaded(bs, a) == Reloaded(bs, b) && Recovered(bs, a) == Recovered(bs, b)
  {
  }

  /** What is laid over everything from `pos` on does not depend on what stood there. */
  lemma SpliceCovers(a: seq<byte>, b: seq<byte>, pos: nat, data: seq<byte>)
    requires |a| == |b| && pos <= |a| <= pos + |data| && a[..pos] == b[..pos]
    ensures Splice(a, pos, data) == Splice(b, pos, data)
  {
  }

  /** The outcome `all` of the whole loop, from the outcome `rest` behind a block before the last. */
  lemma LostWriteLater(c: Cache, d: Cache, content: seq<byte>, pos: nat, data: seq<byte>, k: nat,
      rest: Result<(nat, Cache)>, all: Result<(nat, Cache)>)
    requires c.Shape() && d.Shape() && SameContainer(c, d) && c.simple.provider.Padded() && pos <= |content|
    requires 0 < k < |data| && pos + k <= LastStart(c.BlockSize(), |content|) <= |content|
    requires LostWrite(d, rest, Splice(content, pos, data[..k]), pos + k, data[k..])
    requires (all.Ok? <==> rest.Ok?) && (rest.Ok? ==> all.value == (k + rest.value.0, rest.value.1))
    ensures LostWrite(c, all, content, pos, data)
  {
    hide TailPending, Committed, Unloaded, Emptied, Cache.GetSizeInternal, Reloads, Recovered, TailOf, LastStart,
      Reloaded, Seen, SameContainer, Rest, Writer, TouchedLast, Cache.Shape;
    var bs, content' := c.BlockSize(), Splice(content, pos, data[..k]);
    SameProvider(c, d);
    TailUntouched(bs, content, pos, data[..k]);
    if Reloads(bs, content) {
      ContainerThrough(c, d, rest.value.1);
      if pos + |data| >= |content| {
        SeenLater(c, d, content, pos, data, k);
        TouchedFurther(bs, c.start, d.start, pos, pos + k, pos + |data|);
      }
    }
  }

  lemma ContainerThrough(c: Cache, d: Cache, e: Cache)
    requires c.Shape() && d.Shape() && e.Shape() && SameContainer(c, d) && SameContainer(d, e)
    ensures SameContainer(c, e)
  {
  }

  lemma TouchedFurther(bs: nat, start: nat, start': nat, pos: nat, next: nat, to: nat)
    requires bs > 0 && pos <= next < to
    ensures TouchedLast(bs, start', next, to) == TouchedLast(bs, start, pos, to)
  {
  }

  lemma SeenLater(c: Cache, d: Cache, content: seq<byte>, pos: nat, data: seq<byte>, k: nat)
    requires c.Shape() && d.Shape() && c.BlockSize() == d.BlockSize() && k <= |data|
    requires pos + k <= LastStart(c.BlockSize(), |content|) <= |content| <= pos + |data|
    requires Reloads(c.BlockSize(), content) && Reloads(c.BlockSize(), Splice(content, pos, data[..k]))
    requires Recovered(c.BlockSize(), Splice(content, pos, data[..k])) == Recovered(c.BlockSize(), content)
    ensures var content' := Splice(content, pos, data[..k]);
            Splice(Seen(c.BlockSize(), Rest(d, content'), content'), pos + k, data[k..])
            == Splice(Seen(c.BlockSize(), Rest(c, content), content), pos, data)
  {
    hide Reloads, Seen, LastStart;
    var bs, content' := c.BlockSize(), Splice(content, pos, data[..k]);
    var a, b, r := Seen(bs, Rest(d, content'), content'), Seen(bs, Rest(c, content), content), Recovered(bs, content);
    assert a[..pos + k] == a[..r][..pos + k] == content'[..pos + k];
    SpliceCovers(a, content', pos + k, data[k..]);
    assert b[..pos] == b[..r][..pos] == content[..pos];
    SpliceCovers(b, content, pos, data);
    SpliceJoins(content, pos, data, k);
  }

  /**
   A write whose run does not go through. Unpadded it throws. Padded it throws unless the last block ends like padding.
   Otherwise a write up to the old end or beyond goes on from the content as the cache sees it; a write that ends
   before leaves a shorter stream.
   */
  lemma {:induction false} WriteLoopLost(c: Cache, content: seq<byte>, pos: nat, data: seq<byte>)
    requires Writer(c, content) && pos <= |content| && Fits(c.BlockSize(), pos + |data|)
    requires !CanRun(c, |content|, pos, pos + |data|)
    ensures LostWrite(c, WriteLoop(c, pos, data), content, pos, data)
    decreases |data|
  {
    hide TailPending, Committed, Unloaded, Emptied, Cache.UpdateBlock, Cache.WriteToBlock, Cache.Room, CanMove,
      LostWrite, Crosses, Provider.Cipher;
    if !CanMove(c, |content|, pos) {
      LostWriteHere(c, content, pos, data);
    } else {
      WriteMove(c, content, pos, data);
      var m := c.UpdateBlock(pos).value;
      var k, d := m.Room(pos, |data|), m.WriteToBlock(data, pos);
      CrossesPadded(c, |content|, pos, pos + |data|);
      ApproachesLast(c, d, |content|, pos, d.start + c.BlockSize(), pos + |data|);
      BlockOf(c.BlockSize(), pos + k - 1);
      WriteLoopLost(d, Splice(content, pos, data[..k]), pos + k, data[k..]);
      WriteLoopStep(c, m, d, pos, data, k);
      LostWriteLater(c, d, content, pos, data, k, WriteLoop(d, pos + k, data[k..]), WriteLoop(c, pos, data));
    }
  }

  /** When a write into a writer's stream is the write into a plain array: a matter of lengths and of how it ends. */
  predicate WritesBack(c: Cache, content: seq<byte>, pos: nat, n: nat) {
    || CanRun(c, |content|, pos, pos + n)
    || ( && c.simple.provider.Padded() && Reloads(c.BlockSize(), content)
         && pos + n >= |content| && pos <= Recovered(c.BlockSize(), content))
  }

  /** The write goes through and leaves what a plain array holds. */
  ghost predicate WroteBack(c: Cache, content: seq<byte>, pos: nat, data: seq<byte>)
    requires c.Shape() && pos <= |content|
  {
    var r := WriteLoop(c, pos, data);
    r.Ok? && Writer(r.value.1, Splice(content, pos, data))
  }

  /** On one platform it comes down to what the reload shows before the write. */
  lemma WriteDepends(c: Cache, content: seq<byte>, pos: nat, data: seq<byte>)
    requires Writer(c, content) && pos <= |content| && Fits(c.BlockSize(), pos + |data|)
    ensures WroteBack(c, content, pos, data)
       <==> || CanRun(c, |content|, pos, pos + |data|)
            || (&& c.simple.provider.Padded() && Reloads(c.BlockSize(), content) && pos + |data| >= |content|
                && Seen(c.BlockSize(), Rest(c, content), content)[..pos] == content[..pos])
  {
    hide TailPending, Committed, Unloaded, Emptied, WriteLoop, Reloads, CanMove, Crosses, Seen, CanRun, Rest;
    if CanRun(c, |content|, pos, pos + |data|) {
      WriteLoopRuns(c, content, pos, data);
    } else {
      WriteLoopLost(c, content, pos, data);
      if c.simple.provider.Padded() && Reloads(c.BlockSize(), content) {
        LostIsBack(c, WriteLoop(c, pos, data).value.1, content, pos, data);
      }
    }
  }

  /** What stands before the lost bytes is seen as it is. */
  lemma SeenBefore(bs: nat, rest: seq<byte>, content: seq<byte>, pos: nat)
    requires (bs == 512 || bs == 4096) && Reloads(bs, content) && |rest| == bs - |Reloaded(bs, content)|
    requires pos <= Recovered(bs, content)
    ensures Seen(bs, rest, content)[..pos] == content[..pos]
  {
    hide Reloads, Seen, Recovered;
    var seen, r := Seen(bs, rest, content), Recovered(bs, content);
    assert seen[..pos] == seen[..r][..pos] == content[..r][..pos] == content[..pos];
  }

  /** The same cache on another platform. */
  function On(c: Cache, platform: Platform): (r: Cache)
    ensures r.BlockSize() == c.BlockSize() && (c.Shape() ==> r.Shape())
  {
    c.(simple := c.simple.(provider := c.simple.provider.(platform := platform)))
  }

  /** A platform changes nothing about what a cache stands for and where it can run. */
  lemma OnWriter(c: Cache, platform: Platform, content: seq<byte>)
    requires Writer(c, content)
    ensures Writer(On(c, platform), content)
    ensures forall from, to :: CanRun(On(c, platform), |content|, from, to) == CanRun(c, |content|, from, to)
  {
    hide Cbc4kEncrypt, Cbc512Encrypt, Encrypt4k, Encrypt512;
  }

  /**
   On every platform the write is the write into a plain array exactly when it runs, or the padded last block can be
   reloaded and the write starts among the bytes that come back and goes over the end.
   */
  lemma WriteExact(c: Cache, content: seq<byte>, pos: nat, data: seq<byte>)
    requires Writer(c, content) && pos <= |content| && Fits(c.BlockSize(), pos + |data|)
    ensures WritesBack(c, content, pos, |data|)
       <==> forall platform :: WroteBack(On(c, platform), content, pos, data)
    ensures WritesBack(c, content, pos, |data|) ==> WroteBack(c, content, pos, data)
  {
    hide TailPending, Committed, Unloaded, Emptied, Reloads, Recovered, CanRun, WroteBack, Rest, Seen;
    if WritesBack(c, content, pos, |data|) {
      forall platform ensures WroteBack(On(c, platform), content, pos, data) {
        WriteBackOn(c, content, pos, data, platform);
      }
      WriteBackOn(c, content, pos, data, c.simple.provider.platform);
    } else {
      var bad := WriteFailsOn(c, content, pos, data);
      assert !WroteBack(On(c, bad), content, pos, data);
    }
  }

  lemma WriteBackOn(c: Cache, content: seq<byte>, pos: nat, data: seq<byte>, platform: Platform)
    requires Writer(c, content) && pos <= |content| && Fits(c.BlockSize(), pos + |data|)
    requires WritesBack(c, content, pos, |data|)
    ensures c.Shape() && WroteBack(On(c, platform), content, pos, data)
  {
    hide TailPending, Committed, Unloaded, Emptied, Reloads, Recovered, CanRun, WroteBack, Rest, Seen;
    var d := On(c, platform);
    OnWriter(c, platform, content);
    WriteDepends(d, content, pos, data);
    if !CanRun(c, |content|, pos, pos + |data|) {
      SeenBefore(d.BlockSize(), Rest(d, content), content, pos);
    }
  }

  /** A platform that leaves these bytes. */
  function Leaving(bytes: seq<byte>, unset: byte): Platform {
    Platform((was: seq<byte>, data: seq<byte>) => if |bytes| <= |was| then bytes + was[|bytes|..] else was, unset)
  }

  lemma LeavingRest(c: Cache, content: seq<byte>, bytes: seq<byte>, unset: byte)
    requires c.Shape() && c.simple.provider.Padded() && Reloads(c.BlockSize(), content)
    requires Recovered(c.BlockSize(), content) + |bytes| <= |content|
    ensures var seen := Seen(c.BlockSize(), Rest(On(c, Leaving(bytes, unset)), content), content);
            seen[Recovered(c.BlockSize(), content)..][..|bytes|] == bytes
  {
    hide Reloads, TailCipher, LastStart, Reloaded;
  }

  lemma WriteFailsOn(c: Cache, content: seq<byte>, pos: nat, data: seq<byte>) returns (bad: Platform)
    requires Writer(c, content) && pos <= |content| && Fits(c.BlockSize(), pos + |data|)
    requires !WritesBack(c, content, pos, |data|)
    ensures c.Shape() && !WroteBack(On(c, bad), content, pos, data)
  {
    hide TailPending, Committed, Unloaded, Emptied, Reloads, Recovered, CanRun, WroteBack, Rest, Seen, Leaving;
    bad := c.simple.provider.platform;
    if c.simple.provider.Padded() && Reloads(c.BlockSize(), content) && pos > Recovered(c.BlockSize(), content) {
      var r := Recovered(c.BlockSize(), content);
      var wrong: seq<byte> := [if content[r] == 0 then 1 else 0];
      bad := Leaving(wrong, 0);
      LeavingRest(c, content, wrong, 0);
      var seen := Seen(c.BlockSize(), Rest(On(c, bad), content), content);
      assert seen[r] == seen[r..][..1][0] == wrong[0];
      assert seen[..pos][r] != content[..pos][r];
    }
    OnWriter(c, bad, content);
    WriteDepends(On(c, bad), content, pos, data);
  }

  /** Behind the bytes that come back it depends on the platform: there is always one on which the write is exact. */
  lemma WriteCanSucceed(c: Cache, content: seq<byte>, pos: nat, data: seq<byte>) returns (good: Platform)
    requires Writer(c, content) && pos <= |content| <= pos + |data| && Fits(c.BlockSize(), pos + |data|)
    requires c.simple.provider.Padded() && Reloads(c.BlockSize(), content)
    ensures c.Shape() && WroteBack(On(c, good), content, pos, data)
  {
    hide TailPending, Committed, Unloaded, Emptied, Reloads, Recovered, CanRun, WroteBack, Rest, Seen, Leaving;
    var r := Recovered(c.BlockSize(), content);
    good := Leaving(content[r..], 0);
    LeavingRest(c, content, content[r..], 0);
    var seen := Seen(c.BlockSize(), Rest(On(c, good), content), content);
    SeenBefore(c.BlockSize(), Rest(On(c, good), content), content, r);
    assert seen == seen[..r] + seen[r..] && content == content[..r] + content[r..];
    OnWriter(c, good, content);
    WriteDepends(On(c, good), content, pos, data);
  }

  lemma LostIsBack(c: Cache, d: Cache, content: seq<byte>, pos: nat, data: seq<byte>)
    requires c.Shape() && d.Shape() && pos <= |content| && Reloads(c.BlockSize(), content)
    requires if pos + |data| >= |content| then Covered(c, d, content, pos, data)
             else d.GetSizeInternal() == Max(Recovered(c.BlockSize(), content), pos + |data|)
    ensures Writer(d, Splice(content, pos, data))
       <==> pos + |data| >= |content| && Seen(c.BlockSize(), Rest(c, content), content)[..pos] == content[..pos]
  {
    hide TailPending, Committed, Unloaded, Emptied, Reloads, Seen, Recovered, Cache.GetSizeInternal;
    var seen, back := Seen(c.BlockSize(), Rest(c, content), content), Splice(content, pos, data);
    if pos + |data| >= |content| {
      var there := Splice(seen, pos, data);
      assert there[..pos] == seen[..pos] && back[..pos] == content[..pos];
      if Writer(d, back) {
        OneMeaning(d, there, back);
      }
      if seen[..pos] == content[..pos] {
        SpliceCovers(seen, content, pos, data);
      }
    } else if Writer(d, back) {
      NumbersExact(d, back, 0);
      assert false;
    }
  }

  // ---------------------------------------------------------------- cutting the stream

  /** Whether the cache can come to the block of `pos` at all. */
  predicate Reaches(c: Cache, content: seq<byte>, pos: nat) {
    CanMove(c, |content|, pos) || (c.simple.provider.Padded() && Reloads(c.BlockSize(), content))
  }

  /** In the block that stays cached, a byte is counted by the backing stream only once it has been written out. */
  predicate LastIsCounted(c: Cache, newSize: nat) {
    newSize > 0 && c.start == (newSize - 1) / c.BlockSize() * c.BlockSize() ==> newSize <= c.simple.contentSize
  }

  /** When the byte before `newSize` is one that a reload loses. */
  predicate LastIsLost(c: Cache, content: seq<byte>, newSize: nat) {
    && 0 < newSize < |content| && !CanMove(c, |content|, newSize - 1) && Reloads(c.BlockSize(), content)
    && newSize > Recovered(c.BlockSize(), content)
  }

  /** What a cut leaves: the bytes before the new size, unless the last of them was lost in a reload. */
  function CutContent(c: Cache, content: seq<byte>, newSize: nat): (r: seq<byte>)
    requires c.Shape() && newSize <= |content|
    ensures |r| == newSize
    ensures !LastIsLost(c, content, newSize) ==> r == content[..newSize]
  {
    if LastIsLost(c, content, newSize) then
      Seen(c.BlockSize(), Rest(c, content), content)[..newSize - 1] + [c.simple.provider.platform.unset]
    else content[..newSize]
  }

  lemma LossyBacked(m: Cache, rest: seq<byte>, content: seq<byte>)
    requires Lossy(m, rest, content) && Fits(m.BlockSize(), |content|)
    ensures Backed(m, content)
  {
    hide Provider.Cipher, Provider.CipherSize, Lossy, Reloads;
    LossyBounds(m, rest, content);
    LossyIs(m, rest, content);
    ReloadedBytes(m, rest, content);
    PrefixOfWhole(m, content);
    CleanSize(m, content);
  }

  lemma CleanSize(m: Cache, content: seq<byte>)
    requires m.Shape() && Clean(m, content)
    ensures m.simple.contentSize == |content|
  {
    hide Provider.Cipher;
  }

  /** A cut that would need a block which cannot be reached throws. */
  lemma CutFails(c: Cache, content: seq<byte>, newSize: nat)
    requires Writer(c, content) && 0 < newSize <= |content| && !Reaches(c, content, newSize - 1)
    ensures c.RewriteFinalBlock(newSize).Err? && c.Cut(newSize).Err?
  {
    hide TailPending, Committed, Unloaded, Emptied, Cache.UpdateBlock, CanMove, Reloads, Provider.Cipher;
    MoveExact(c, content, newSize - 1);
  }

  /** Rewriting a recovered byte changes nothing but the flags. */
  lemma LossyRewrite(c: Cache, content: seq<byte>, newSize: nat) returns (u: Cache)
    requires Writer(c, content) && 0 < newSize < |content| && !CanMove(c, |content|, newSize - 1)
    requires c.simple.provider.Padded() && Reloads(c.BlockSize(), content)
    requires newSize <= Recovered(c.BlockSize(), content)
    ensures Backed(u, content) && SameContainer(c, u) && u.simple.contentSize == |content|
    ensures u.start < newSize <= u.start + u.size && u.start == LastStart(c.BlockSize(), |content|)
    ensures c.RewriteFinalBlock(newSize) == Ok(u.(finalWritten := false, pending := true))
  {
    hide Provider.Cipher, Cache.UpdateBlock, TailPending, Committed, Unloaded, Emptied, Reloads, Recovered, CanMove,
      Lossy, Cache.WriteToBlock, Cache.ReadFromBlock, SameContainer, Clean, Backed, LastStart;
    MoveExact(c, content, newSize - 1);
    u := c.UpdateBlock(newSize - 1).value;
    SameProvider(c, u);
    LossyIs(u, Rest(c, content), content);
    CleanSize(u, content);
    LossyBacked(u, Rest(c, content), content);
    BlockOf(c.BlockSize(), newSize - 1);
    RewriteIsFlags(u, newSize - 1);
  }

  lemma LossyCut(c: Cache, content: seq<byte>, newSize: nat)
    requires Writer(c, content) && 0 < newSize < |content| && !CanMove(c, |content|, newSize - 1)
    requires c.simple.provider.Padded() && Reloads(c.BlockSize(), content)
    requires newSize <= Recovered(c.BlockSize(), content)
    ensures WasCut(c, c.Cut(newSize), content[..newSize], newSize)
  {
    hide Provider.Cipher, Cache.RewriteFinalBlock, Cache.SizeInternal, Simple.Shrink, TailPending, Committed,
      Unloaded, Emptied, Reloads, Recovered, CanMove, SameContainer;
    var u := LossyRewrite(c, content, newSize);
    CutKeeps(u, content, newSize);
    var e := c.Cut(newSize).value;
    SameContainerTransitive(c, u, e);
    SameProvider(c, u);
    CutAtBlock(c.BlockSize(), |content|, newSize);
    TailReady(e, content[..newSize]);
  }

  /** The byte before the new size was lost in the reload: it is written back unset. */
  lemma LostRewrite(c: Cache, content: seq<byte>, newSize: nat) returns (u: Cache)
    requires Writer(c, content) && 0 < newSize < |content| && !CanMove(c, |content|, newSize - 1)
    requires c.simple.provider.Padded() && Reloads(c.BlockSize(), content)
    requires newSize > Recovered(c.BlockSize(), content)
    ensures c.Shape() && Backed(u, CutContent(c, content, newSize)) && SameContainer(c, u)
    ensures u.simple.contentSize == |content|
    ensures u.start < newSize == u.start + u.size && u.start == LastStart(c.BlockSize(), |content|)
    ensures c.RewriteFinalBlock(newSize) == Ok(u) && u == u.(finalWritten := false, pending := true)
  {
    hide Provider.Cipher, Cache.UpdateBlock, TailPending, Committed, Unloaded, Emptied, Reloads, Recovered, CanMove,
      Lossy, SameContainer, Clean, Backed, LastStart, Rest, Seen;
    MoveExact(c, content, newSize - 1);
    var m := c.UpdateBlock(newSize - 1).value;
    SameProvider(c, m);
    LossyIs(m, Rest(c, content), content);
    CleanSize(m, content);
    BlockOf(c.BlockSize(), newSize - 1);
    u := m.(finalWritten := false).WriteToBlock([c.simple.provider.platform.unset], newSize - 1);
    UnsetPlatform(c, m);
    ContainerKept(c, m, u, u) by { SameContainerReflexive(u); }
    LostBacked(c, m, content, newSize);
  }

  lemma UnsetPlatform(c: Cache, m: Cache)
    requires SameContainer(c, m)
    ensures c.simple.provider.platform.unset == m.simple.provider.platform.unset
  {
  }

  lemma LostBacked(c: Cache, m: Cache, content: seq<byte>, newSize: nat)
    requires c.Shape() && Reloads(c.BlockSize(), content) && c.BlockSize() == m.BlockSize()
    requires Lossy(m, Rest(c, content), content) && Fits(m.BlockSize(), |content|)
    requires m.start + m.size < newSize < |content| && !CanMove(c, |content|, newSize - 1)
    ensures Backed(m.(finalWritten := false).WriteToBlock([c.simple.provider.platform.unset], newSize - 1),
                   CutContent(c, content, newSize))
  {
    hide Provider.Cipher, Provider.CipherSize, Reloads, CanMove, Rest, Clean, Seen, Recovered, CutContent, Lossy,
      Cache.WriteToBlock, LastStart;
    LossyIs(m, Rest(c, content), content);
    PrefixOfWhole(m, content);
    CleanSize(m, content);
    LostBytes(c, m, content, newSize);
  }

  lemma LostBytes(c: Cache, m: Cache, content: seq<byte>, newSize: nat)
    requires c.Shape() && Reloads(c.BlockSize(), content) && c.BlockSize() == m.BlockSize()
    requires Lossy(m, Rest(c, content), content) && Fits(m.BlockSize(), |content|)
    requires m.start + m.size < newSize < |content| && !CanMove(c, |content|, newSize - 1)
    ensures var u := m.(finalWritten := false).WriteToBlock([c.simple.provider.platform.unset], newSize - 1);
            var cut := CutContent(c, content, newSize);
            && u.Shape() && u.simple == m.simple && u.start == m.start && u.start + u.size == newSize
            && u.pending && !u.finalWritten
            && u.buffer[..u.size] == cut[u.start..newSize] && cut[..u.start] == content[..u.start]
  {
    hide Provider.Cipher, Reloads, CanMove, Rest, Clean, Seen, Lossy, LastStart, Recovered;
    var seen, o := Seen(c.BlockSize(), Rest(c, content), content), newSize - 1 - m.start;
    LossyIs(m, Rest(c, content), content);
    LossyBounds(m, Rest(c, content), content);
    SeenTail(m, Rest(c, content), content);
    var last := [c.simple.provider.platform.unset];
    assert last[..1] == last;
    UnsetLast(m.buffer, seen, m.start, o, last);
  }

  lemma UnsetLast(buffer: seq<byte>, seen: seq<byte>, start: nat, o: nat, last: seq<byte>)
    requires start + o <= |seen| && |seen| - start <= |buffer| && o < |buffer| && |last| == 1
    requires seen[start..] == buffer[..|seen| - start]
    ensures Splice(buffer, o, last)[..o + 1] == (seen[..start + o] + last)[start..]
    ensures (seen[..start + o] + last)[..start] == seen[..start]
  {
    assert Splice(buffer, o, last)[..o + 1] == buffer[..o] + last;
    assert buffer[..o] == buffer[..|seen| - start][..o];
  }

  lemma LostCut(c: Cache, content: seq<byte>, newSize: nat)
    requires Writer(c, content) && 0 < newSize < |content| && !CanMove(c, |content|, newSize - 1)
    requires c.simple.provider.Padded() && Reloads(c.BlockSize(), content)
    requires newSize > Recovered(c.BlockSize(), content)
    ensures c.Shape() && WasCut(c, c.Cut(newSize), CutContent(c, content, newSize), newSize)
  {
    hide Provider.Cipher, Cache.RewriteFinalBlock, Cache.SizeInternal, Simple.Shrink, TailPending, Committed,
      Unloaded, Emptied, Reloads, Recovered, CanMove, SameContainer, CutContent, Backed;
    var u := LostRewrite(c, content, newSize);
    CutKeeps(u, CutContent(c, content, newSize), newSize);
    var d := u.(finalWritten := false, pending := true, simple := u.simple.Shrink(newSize));
    assert d == u.(simple := u.simple.Shrink(newSize));
    assert c.Cut(newSize) == d.SizeInternal(newSize);
    var e := d.SizeInternal(newSize).value;
    SameContainerTransitive(c, u, e);
    SameProvider(c, u);
    SameProvider(u, e);
    CutAtBlock(c.BlockSize(), |content|, newSize);
    assert CutContent(c, content, newSize)[..newSize] == CutContent(c, content, newSize);
    TailReady(e, CutContent(c, content, newSize));
  }

  lemma CutAtBlock(bs: nat, size: nat, newSize: nat)
    requires (bs == 512 || bs == 4096) && LastStart(bs, size) < newSize <= size
    ensures (newSize - 1) / bs * bs == LastStart(bs, size)
  {
    BlockUnique(bs, LastStart(bs, size) / bs, newSize - 1);
  }

  // ---------------------------------------------------------------- what the stream's operations need

  /** One round of the read loop, by its parts. */
  lemma ReadLoopStep(c: Cache, m: Cache, pos: nat, n: nat, front: seq<byte>)
    requires c.Shape() && m.Shape() && c.UpdateBlock(pos) == Ok(m) && n > 0 && pos < c.GetSizeInternal()
    requires front == m.ReadFromBlock(pos, n) && |front| <= n
    ensures front == [] ==> ReadLoop(c, pos, n) == Ok(([], m))
    ensures front != [] ==>
              var all, rest := ReadLoop(c, pos, n), ReadLoop(m, pos + |front|, n - |front|);
              && (all.Ok? <==> rest.Ok?)
              && (rest.Ok? ==> all.value.0 == front + rest.value.0 && all.value.1 == rest.value.1)
  {
    hide Cache.UpdateBlock, Cache.ReadFromBlock, Cache.GetSizeInternal;
  }

  lemma ReadLoopFails(c: Cache, pos: nat, n: nat)
    requires c.Shape() && c.UpdateBlock(pos).Err? && n > 0 && pos < c.GetSizeInternal()
    ensures ReadLoop(c, pos, n).Err?
  {
    hide Cache.UpdateBlock, Cache.ReadFromBlock, Cache.GetSizeInternal;
  }

  lemma ReadLoopEnds(c: Cache, pos: nat, n: nat)
    requires c.Shape() && (n == 0 || pos >= c.GetSizeInternal())
    ensures ReadLoop(c, pos, n) == Ok(([], c))
  {
    hide Cache.UpdateBlock, Cache.ReadFromBlock, Cache.GetSizeInternal;
  }

  lemma WriteLoopEnds(c: Cache, m: Cache, pos: nat, data: seq<byte>)
    requires c.Shape() && m.Shape()
    ensures data == [] ==> WriteLoop(c, pos, data) == Ok((0, c))
    ensures data != [] && c.UpdateBlock(pos).Err? ==> WriteLoop(c, pos, data).Err?
    ensures (data != [] && c.UpdateBlock(pos) == Ok(m) && m.Room(pos, |data|) == 0)
      ==> WriteLoop(c, pos, data) == Ok((0, m))
  {
    hide Cache.UpdateBlock, Cache.Room, Cache.WriteToBlock;
  }

  /** The content that a write at `off`, or a growth to `off`, starts from. */
  function Base(c: Cache, content: seq<byte>, off: nat, n: nat): (r: seq<byte>)
    requires c.Shape()
    ensures |r| == |content|
    ensures CanWriteAt(c, |content|, off, n) ==> r == content
  {
    if CanWriteAt(c, |content|, off, n) || !Reloads(c.BlockSize(), content) then content
    else Seen(c.BlockSize(), Rest(c, content), content)
  }

  /** A write that starts among the bytes that come back does not show that others are lost. */
  lemma BaseWritesBack(c: Cache, content: seq<byte>, off: nat, data: seq<byte>)
    requires c.Shape() && off <= |content| && WritesBack(c, content, off, |data|)
    ensures WriteReaches(c, content, off, |data|) && WriteKeeps(c, content, off, |data|)
    ensures ArrayWrite(Base(c, content, off, |data|), off, data) == ArrayWrite(content, off, data)
  {
    hide CanRun, Reloads, Recovered, Rest, Seen;
    if !CanRun(c, |content|, off, off + |data|) {
      SeenBefore(c.BlockSize(), Rest(c, content), content, off);
      SpliceCovers(Seen(c.BlockSize(), Rest(c, content), content), content, off, data);
    }
  }

  /** Whether a write can be carried out at all. */
  predicate WriteReaches(c: Cache, content: seq<byte>, off: nat, n: nat) {
    CanWriteAt(c, |content|, off, n) || (c.simple.provider.Padded() && Reloads(c.BlockSize(), content))
  }

  /** Whether the stream still stands for a content afterwards. */
  predicate WriteKeeps(c: Cache, content: seq<byte>, off: nat, n: nat) {
    CanWriteAt(c, |content|, off, n) || off + n >= |content|
  }

  /** Behind the end a write is possible exactly when the cache can come to the end. */
  lemma GrowthIsMove(c: Cache, content: seq<byte>, off: nat, n: nat)
    requires off + n > |content| && off >= |content|
    ensures CanWriteAt(c, |content|, off, n) <==> CanMove(c, |content|, |content|)
    ensures WriteReaches(c, content, off, n) <==> Reaches(c, content, |content|)
  {
    hide CanMove, Reloads;
    TailRunsBack(c, |content|, off + n);
  }

  lemma TailRunsBack(c: Cache, size: nat, to: nat)
    requires size < to
    ensures CanRun(c, size, size, to) <==> CanMove(c, size, size)
  {
    hide CanMove;
    if CanMove(c, size, size) {
      TailRuns(c, size, to);
    }
  }

  /** All growths start from the same content. */
  lemma GrowthBase(c: Cache, content: seq<byte>, off: nat, n: nat, off': nat, n': nat)
    requires c.Shape() && off + n > |content| && off >= |content| && off' + n' > |content| && off' >= |content|
    ensures Base(c, content, off, n) == Base(c, content, off', n')
  {
    hide CanMove, Reloads, CanWriteAt;
    GrowthIsMove(c, content, off, n);
    GrowthIsMove(c, content, off', n');
  }

  lemma NothingWritten(m: Cache, data: seq<byte>, pos: nat)
    requires m.Shape() && data != [] && m.Room(pos, |data|) == 0
    ensures m.WriteToBlock(data, pos) == m
  {
  }

  /** What seeking leaves for the write that follows. */
  ghost predicate Sought(c: Cache, d: Cache, content: seq<byte>, grown: seq<byte>, off: nat) {
    && c.Shape() && d.Shape() && SameContainer(c, d)
    && if off <= |content| then d == c && grown == content
       else && Reaches(c, content, |content|) && grown == ZeroExtend(Base(c, content, off, 0), off)
            && CanMove(d, off, off) && d.start == (off - 1) / d.BlockSize() * d.BlockSize()
  }

  /** The write after the seek, in terms of the state before it. */
  lemma WholeWrite(c: Cache, d: Cache, content: seq<byte>, grown: seq<byte>, off: nat, data: seq<byte>)
    requires Sought(c, d, content, grown, off)
    ensures WriteReaches(d, grown, off, |data|) == WriteReaches(c, content, off, |data|)
    ensures WriteKeeps(d, grown, off, |data|) == WriteKeeps(c, content, off, |data|)
    ensures off <= |grown|
    ensures Splice(Base(d, grown, off, |data|), off, data) == ArrayWrite(Base(c, content, off, |data|), off, data)
    ensures TouchedLast(d.BlockSize(), d.start, off, off + |data|)
         == TouchedLast(c.BlockSize(), c.start, Min(off, |content|), off + |data|)
  {
    hide CanMove, Reloads, Base, SameContainer, CanWriteAt, Reaches, TouchedLast;
    SameProvider(c, d);
    if off <= |content| {
      assert ZeroExtend(Base(c, content, off, |data|), off) == Base(c, content, off, |data|);
    } else {
      GrowthIsMove(c, content, off, |data|);
      GrowthBase(c, content, off, |data|, off, 0);
      WriteBehind(d, off, |data|);
      TouchedBehind(d.BlockSize(), c.start, |content|, off, |data|);
    }
  }

  lemma WriteBehind(d: Cache, off: nat, n: nat)
    requires CanMove(d, off, off)
    ensures CanWriteAt(d, off, off, n)
  {
    hide CanMove;
    TailRuns(d, off, off + n);
  }

  lemma TouchedBehind(bs: nat, start: nat, size: nat, off: nat, n: nat)
    requires bs > 0 && off > size
    ensures TouchedLast(bs, (off - 1) / bs * bs, off, off + n) == TouchedLast(bs, start, size, off + n)
  {
  }

  /** A write behind an end that cannot be reached throws. */
  lemma GrowthOutcome(c: Cache, content: seq<byte>, off: nat, n: nat)
    requires off > |content| && !Reaches(c, content, |content|)
    ensures !WriteReaches(c, content, off, n)
  {
    hide CanMove, Reloads, CanWriteAt, Reaches;
    GrowthIsMove(c, content, off, n);
  }

  lemma ReadGrowth(c: Cache, content: seq<byte>, off: nat, n: nat)
    requires off > |content| && !Reaches(c, content, |content|)
    ensures !CanReadAt(c, |content|, off, n)
  {
    hide CanMove, Reloads;
    TailRunsBack(c, |content|, off);
  }

  /** The read after the seek, in terms of the state before it. */
  lemma WholeRead(c: Cache, d: Cache, content: seq<byte>, grown: seq<byte>, off: nat, n: nat)
    requires Sought(c, d, content, grown, off)
    ensures off <= |content| ==>
              && CanReadAt(c, |content|, off, n) == CanRun(d, |grown|, off, Min(off + n, |grown|))
              && ZeroExtend(content, off) == content
              && ReadStart(c, |content|, off, n) == TouchedLast(d.BlockSize(), d.start, off, Min(off + n, |grown|))
    ensures off > |content| ==>
              && CanRun(d, |grown|, off, Min(off + n, |grown|)) && ArrayRead(grown, off, n) == []
              && (CanReadAt(c, |content|, off, n) ==> grown == ZeroExtend(content, off))
              && ReadStart(c, |content|, off, n) == TouchedLast(d.BlockSize(), d.start, off, Min(off + n, |grown|))
  {
    hide CanMove, Reloads, Base, SameContainer, CanWriteAt, Reaches;
    SameProvider(c, d);
    if off > |content| {
      GrowthIsMove(c, content, off, 0);
      TailRunsBack(c, |content|, off);
    }
  }

  /** How far the zeros have come: `d` and `now` are the state, `c` and `whole` the state before the first of them. */
  ghost predicate Filled(c: Cache, d: Cache, whole: seq<byte>, now: seq<byte>, value: nat)
    requires c.Shape()
  {
    if |now| <= |whole| then d == c && now == whole
    else
      && Reaches(c, whole, |whole|) && now == ZeroExtend(Base(c, whole, value, 0), |now|)
      && CanMove(d, |now|, |now|) && SameContainer(c, d)
      && d.start == (|now| - 1) / d.BlockSize() * d.BlockSize()
  }

  /** The next run of zeros can be written exactly when the end could be reached at first. */
  lemma FillGoesOn(c: Cache, d: Cache, whole: seq<byte>, was: seq<byte>, value: nat, k: nat)
    requires c.Shape() && Filled(c, d, whole, was, value) && 0 < k
    ensures WriteKeeps(d, was, |was|, k)
    ensures WriteReaches(d, was, |was|, k) <==> Reaches(c, whole, |whole|)
  {
    hide CanMove, Reloads, Base, CanWriteAt;
    GrowthIsMove(d, was, |was|, k);
  }

  lemma FilledMore(c: Cache, d: Cache, e: Cache, whole: seq<byte>, was: seq<byte>, now: seq<byte>, value: nat, k: nat)
    requires c.Shape() && d.Shape() && Filled(c, d, whole, was, value)
    requires |whole| <= |was| && 0 < k && |was| + k <= value && WriteReaches(d, was, |was|, k)
    requires Denotes(true, e, now) && SameContainer(d, e)
    requires now == ArrayWrite(Base(d, was, |was|, k), |was|, Zeros(k))
    requires e.start == TouchedLast(e.BlockSize(), d.start, |was|, |was| + k)
    ensures Filled(c, e, whole, now, value)
  {
    hide CanMove, Reloads, Base, CanWriteAt, SameContainer, TailPending, Committed, Unloaded, Emptied;
    FillGoesOn(c, d, whole, was, value, k);
    GrowthIsMove(d, was, |was|, k);
    if |was| > |whole| {
      assert Zeros(|was| - |whole|) + Zeros(k) == Zeros(|was| + k - |whole|);
      SameContainerTransitive(c, d, e);
    } else {
      GrowthBase(c, whole, |whole|, k, value, 0);
    }
    TailReady(e, now);
  }

  /** The whole outcome of the write loop from a position that has been sought. */
  lemma WriteOutcome(c: Cache, content: seq<byte>, pos: nat, data: seq<byte>)
    requires Denotes(true, c, content) && pos <= |content| && Fits(c.BlockSize(), pos + |data|)
    ensures c.Shape()
    ensures var r := WriteLoop(c, pos, data);
            && (r.Ok? <==> WriteReaches(c, content, pos, |data|))
            && (r.Ok? ==> r.value.0 == |data| && SameContainer(c, r.value.1))
            && (r.Ok? && WriteKeeps(c, content, pos, |data|) ==>
                  && Denotes(true, r.value.1, Splice(Base(c, content, pos, |data|), pos, data))
                  && r.value.1.start == TouchedLast(c.BlockSize(), c.start, pos, pos + |data|)
                  && (data == [] ==> r.value.1 == c))
            && (r.Ok? && !WriteKeeps(c, content, pos, |data|) ==>
                  r.value.1.GetSizeInternal() == Max(Recovered(c.BlockSize(), content), pos + |data|))
  {
    hide TailPending, Committed, Unloaded, Emptied, WriteLoop, Reloads, CanMove, Crosses, Seen, SameContainer,
      TouchedLast, Cache.GetSizeInternal, Recovered;
    if CanRun(c, |content|, pos, pos + |data|) {
      WriteLoopRuns(c, content, pos, data);
    } else {
      WriteLoopLost(c, content, pos, data);
    }
  }

  /** The whole outcome of the read loop. */
  lemma ReadOutcome(c: Cache, content: seq<byte>, pos: nat, n: nat)
    requires Denotes(true, c, content)
    ensures c.Shape()
    ensures var r, can := ReadLoop(c, pos, n), CanRun(c, |content|, pos, Min(pos + n, |content|));
            && (r.Ok? <==> can || (c.simple.provider.Padded() && Reloads(c.BlockSize(), content)))
            && (r.Ok? && r.value.0 == ArrayRead(content, pos, n) <==> ReadsBack(c, content, pos, n))
            && (can ==> && r.value.0 == ArrayRead(content, pos, n)
                        && Denotes(true, r.value.1, content) && SameContainer(c, r.value.1)
                        && r.value.1.start == TouchedLast(c.BlockSize(), c.start, pos, Min(pos + n, |content|)))
            && (r.Ok? && !can ==>
                  && r.value.0 == ArrayRead(content[..Recovered(c.BlockSize(), content)], pos, n)
                  && Clean(r.value.1, content))
  {
    hide TailPending, Committed, Unloaded, Emptied, ReadLoop, Reloads, CanRun, SameContainer, TouchedLast, Recovered,
      Clean;
    ReadExact(c, content, pos, n);
    if CanRun(c, |content|, pos, Min(pos + n, |content|)) {
      ReadLoopRuns(c, content, pos, n);
    } else {
      ReadLoopLost(c, content, pos, n);
    }
  }

  /** Which block a read leaves in the cache, where it runs. */
  function ReadStart(c: Cache, size: nat, off: nat, n: nat): nat {
    if off > size then (off - 1) / c.BlockSize() * c.BlockSize()
    else TouchedLast(c.BlockSize(), c.start, off, Min(off + n, size))
  }

  /** What a read returns, and leaves, where it does not run. */
  ghost predicate LostReadAt(c: Cache, content: seq<byte>, off: nat, n: nat, r: Result<seq<byte>>, d: Cache)
    requires c.Shape()
  {
    && (r.Ok? <==> c.simple.provider.Padded() && Reloads(c.BlockSize(), content))
    && (r.Ok? ==> d.Shape() && Clean(d, content)
                  && r.value == ArrayRead(content[..Recovered(c.BlockSize(), content)], off, n))
  }

  /** Whether another size can be reached. */
  predicate SizeReaches(c: Cache, content: seq<byte>, value: nat) {
    if value > |content| then Reaches(c, content, |content|)
    else if value == 0 then c.start == 0
    else Reaches(c, content, value - 1) && LastIsCounted(c, value)
  }

  /** Cutting never returns. */
  predicate CutBlocks(c: Cache, content: seq<byte>, value: nat) {
    0 < value < |content| && Reaches(c, content, value - 1) && !LastIsCounted(c, value)
  }

  /** Cutting, from the first step to the last. */
  lemma CutExact(c: Cache, content: seq<byte>, newSize: nat)
    requires Denotes(true, c, content) && newSize < |content|
    ensures c.Shape()
    ensures c.Cut(newSize).Ok? <==> SizeReaches(c, content, newSize)
    ensures c.Cut(newSize).Ok? ==> WasCut(c, c.Cut(newSize), CutContent(c, content, newSize), newSize)
    ensures CutBlocks(c, content, newSize) ==> c.RewriteFinalBlock(newSize).Ok? && c.Cut(newSize) == Err(Blocked)
    ensures newSize > 0 && !Reaches(c, content, newSize - 1) ==> c.RewriteFinalBlock(newSize).Err?
  {
    hide TailPending, Committed, Unloaded, Emptied, Cache.Cut, LastIsCounted, CutContent, Recovered, CanMove, Reloads,
      SameContainer, Provider.Cipher;
    if newSize == 0 {
      CutToZero(c, content);
    } else if !Reaches(c, content, newSize - 1) {
      CutFails(c, content, newSize);
    } else if !LastIsCounted(c, newSize) {
      CutCounts(c, content, newSize);
    } else {
      CutGoesThrough(c, content, newSize);
    }
  }

  lemma CutToZero(c: Cache, content: seq<byte>)
    requires Denotes(true, c, content) && content != []
    ensures c.Shape() && (c.Cut(0).Ok? <==> c.start == 0)
    ensures c.Cut(0).Ok? ==> WasCut(c, c.Cut(0), CutContent(c, content, 0), 0)
  {
    hide TailPending, Committed, Unloaded, Provider.Cipher, SameContainer, CanMove, Provider.CipherSize, Cache.CutTo;
    CutToNothing(c, content);
    EmptiedMoves();
  }

  /** Where the byte before the new size is recovered or was never lost, the cut is one of a plain array. */
  lemma CutGoesThrough(c: Cache, content: seq<byte>, newSize: nat)
    requires Denotes(true, c, content) && 0 < newSize < |content|
    requires Reaches(c, content, newSize - 1) && LastIsCounted(c, newSize)
    ensures c.Shape() && WasCut(c, c.Cut(newSize), CutContent(c, content, newSize), newSize)
  {
    hide TailPending, Committed, Unloaded, Emptied, Cache.Cut, CanMove, Reloads, WasCut, Recovered, Provider.Cipher,
      Seen, Rest;
    if CanMove(c, |content|, newSize - 1) {
      ShrinkRound(c, content, newSize);
    } else if newSize <= Recovered(c.BlockSize(), content) {
      LossyCut(c, content, newSize);
    } else {
      LostCut(c, content, newSize);
    }
  }

  /**
   The backing stream is cut, and not grown, exactly when the byte before the new size is counted there: after a move
   to its block always, in the block that stays cached only as far as it has been written out.
   */
  lemma CutCounts(c: Cache, content: seq<byte>, newSize: nat)
    requires Denotes(true, c, content) && 0 < newSize < |content| && Reaches(c, content, newSize - 1)
    ensures c.Shape() && c.RewriteFinalBlock(newSize).Ok?
    ensures newSize <= c.RewriteFinalBlock(newSize).value.simple.contentSize <==> LastIsCounted(c, newSize)
    ensures !LastIsCounted(c, newSize) ==> c.Cut(newSize) == Err(Blocked)
  {
    hide TailPending, Committed, Unloaded, Emptied, Reloads, CanMove, Recovered, Provider.Cipher, Cache.UpdateBlock,
      Cache.Cut, Cache.RewriteFinalBlock, Seen, Rest, Provider.Legal, SameContainer, LastIsCounted, CutContent;
    if LastIsCounted(c, newSize) {
      CutGoesThrough(c, content, newSize);
      CutIsCounted(c, newSize);
    } else {
      Uncounted(c, content, newSize);
    }
  }

  lemma CutIsCounted(c: Cache, newSize: nat)
    requires c.Shape() && c.Cut(newSize).Ok?
    ensures c.RewriteFinalBlock(newSize).Ok? && newSize <= c.RewriteFinalBlock(newSize).value.simple.contentSize
  {
    hide Cache.RewriteFinalBlock, Cache.SizeInternal;
  }

  lemma Uncounted(c: Cache, content: seq<byte>, newSize: nat)
    requires Writer(c, content) && 0 < newSize < |content| && !LastIsCounted(c, newSize)
    ensures c.RewriteFinalBlock(newSize).Ok? && newSize > c.RewriteFinalBlock(newSize).value.simple.contentSize
    ensures c.Cut(newSize) == Err(Blocked)
  {
    hide Provider.Cipher, TailPending, Committed, Unloaded, Emptied, Cache.UpdateBlock, Cache.ReadFromBlock,
      Cache.BlockSize;
    StaysPut(c, content, newSize - 1);
    RewrittenCount(c, newSize);
  }

  lemma StaysPut(c: Cache, content: seq<byte>, pos: nat)
    requires Writer(c, content) && pos < |content| && c.start == pos / c.BlockSize() * c.BlockSize()
    ensures c.UpdateBlock(pos) == Ok(c)
  {
    hide Provider.Cipher, TailPending, Committed, Emptied, Cache.Load, Cache.Evict, Cache.CalculateBlockNumber;
    NumbersExact(c, content, pos);
    BlockOf(c.BlockSize(), pos);
    BlockUnique(c.BlockSize(), pos / c.BlockSize(), c.start);
  }

  lemma RewrittenCount(c: Cache, newSize: nat)
    requires c.Shape() && newSize > 0 && c.UpdateBlock(newSize - 1) == Ok(c)
    ensures c.RewriteFinalBlock(newSize).Ok?
    ensures c.RewriteFinalBlock(newSize).value.simple.contentSize == c.simple.contentSize
  {
    hide Cache.UpdateBlock, Cache.ReadFromBlock;
  }

  /** On every platform the cut is one of a plain array exactly when its last byte is not lost in a reload. */
  lemma CutIsPrefix(c: Cache, content: seq<byte>, newSize: nat)
    requires c.Shape() && newSize <= |content|
    ensures !LastIsLost(c, content, newSize)
       <==> forall platform :: CutContent(On(c, platform), content, newSize) == content[..newSize]
  {
    hide Reloads, Recovered, Rest, Seen, CanMove;
    OnMoves(c, content);
    if LastIsLost(c, content, newSize) {
      var wrong: byte := if content[newSize - 1] == 0 then 1 else 0;
      var bad := Leaving([], wrong);
      assert CutContent(On(c, bad), content, newSize)[newSize - 1] == wrong;
    }
  }

  lemma OnMoves(c: Cache, content: seq<byte>)
    ensures forall platform, pos :: CanMove(On(c, platform), |content|, pos) == CanMove(c, |content|, pos)
  {
  }

  lemma EmptiedMoves()
    ensures forall e: Cache :: e.Shape() && Emptied(e, []) ==> CanMove(e, 0, 0) && e.simple.contentSize == 0
  {
  }
}
