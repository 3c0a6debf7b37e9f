/** Whole runs of stream operations. */
module StreamRuns {
  import opened BlockCipher
  import opened Bytes
  import opened Wrappers
  import opened Providers
  import opened CacheModel
  import opened CacheTheory
  import opened CipherFormat
  import opened LoopTheory
  import opened ReloadTheory
  import opened RunTheory
  import opened ProtectedStream
  import opened Chunks

  // ---------------------------------------------------------------- chunks in any order

  /**
   Writes the chunks of p in the given order and flushes. The backing stream then holds the whole-buffer
   encryption of p, in every cipher mode and for every order.
   */
  method WriteChunks(s: BlockBasedProtectedStream, p: seq<byte>, order: seq<nat>) returns (r: Result<()>)
    requires s.Valid() && s.writer && s.content == []
    requires IsOrder(|p|, order) && s.simple.provider.Legal(|p|) && Fits(s.Cached().BlockSize(), |p|)
    modifies s.Footprint()
    ensures s.Valid() && s.content == p
    ensures r.Ok? <==> CanFlush(s.simple.provider, |p|)
    ensures r.Ok? ==> s.Region() == s.simple.provider.Cipher(p, 0, true) && Enciphered(s.simple.provider, p, s.Region())
  {
    hide Built, Denotes, CanWriteAt, ArrayWrite, Chunk, SameContainer, CanFlush;
    assert Built(p, NumbersIn(order[..0]), []) by { NothingBuilt(p); }
    for i := 0 to |order|
      invariant s.Valid() && Built(p, NumbersIn(order[..i]), s.content)
    {
      var k := order[i];
      assert k !in NumbersIn(order[..i]);
      ChunkWritable(s.Cached(), p, NumbersIn(order[..i]), s.content, k);
      ChunkBounds(p, k);
      BuildStep(p, NumbersIn(order[..i]), s.content, k);
      var written := s.WriteAsync(Chunk(p, k), 4096 * k);
      assert NumbersIn(order[..i + 1]) == NumbersIn(order[..i]) + {k};
    }
    assert order[..|order|] == order;
    BuiltAll(p, NumbersIn(order), s.content);
    r := s.FlushAsync();
  }

  lemma NothingBuilt(p: seq<byte>)
    ensures Built(p, NumbersIn([]), [])
  {
  }

  lemma ChunkBounds(p: seq<byte>, k: nat)
    requires k < Count(|p|)
    ensures 4096 * k + |Chunk(p, k)| <= |p|
  {
  }

  // ---------------------------------------------------------------- any operations, in every mode

  datatype Op =
    | ReadOp(off: nat, n: nat)
    | WriteOp(off: nat, data: seq<byte>)
    | SizeOp(size: nat)
    | FlushOp

  /** The plain byte array after an operation. */
  function ArrayAfter(c: seq<byte>, op: Op): seq<byte> {
    match op
    case ReadOp(off, n) => ZeroExtend(c, off)
    case WriteOp(off, data) => ArrayWrite(c, off, data)
    case SizeOp(size) => Resize(c, size)
    case FlushOp => c
  }

  function ArrayOutput(c: seq<byte>, op: Op): seq<byte> {
    if op.ReadOp? then ArrayRead(c, op.off, op.n) else []
  }

  function ArrayRun(c: seq<byte>, ops: seq<Op>): (seq<byte>, seq<seq<byte>>)
    decreases ops
  {
    if ops == [] then (c, [])
    else
      var rest := ArrayRun(ArrayAfter(c, ops[0]), ops[1..]);
      (rest.0, [ArrayOutput(c, ops[0])] + rest.1)
  }

  /** The length after an operation. */
  function SizeAfter(size: nat, op: Op): nat {
    match op
    case ReadOp(off, n) => Max(size, off)
    case WriteOp(off, data) => Max(size, off + |data|)
    case SizeOp(v) => v
    case FlushOp => size
  }

  lemma SizeAfterIs(c: seq<byte>, op: Op)
    ensures |ArrayAfter(c, op)| == SizeAfter(|c|, op)
  {
  }

  /** Which block the last touched byte lies in; `at` is the block touched before. */
  function BlockAfter(bs: nat, size: nat, at: nat, op: Op): nat
    requires bs > 0
  {
    match op
    case ReadOp(off, n) =>
      if off > size then (off - 1) / bs * bs else TouchedLast(bs, at, off, Min(off + n, size))
    case WriteOp(off, data) => TouchedLast(bs, at, Min(off, size), off + |data|)
    case SizeOp(v) =>
      if v == size then at
      else if v == 0 then 0
      else (v - 1) / bs * bs
    case FlushOp => at
  }

  /** Another block than the padded last one, or the block that was touched before. */
  predicate Stays(p: Provider, size: nat, at: nat, pos: nat) {
    at == pos / p.CacheBlock() * p.CacheBlock() || !(p.Padded() && InLastBlock(p.CacheBlock(), size, pos))
  }

  /** A stretch that does not come back to a padded last block. */
  predicate NoReturn(p: Provider, size: nat, at: nat, from: nat, to: nat) {
    from < to ==> Stays(p, size, at, from) && !(p.Padded() && Crosses(p.CacheBlock(), size, from, to))
  }

  predicate Touches(p: Provider, size: nat, at: nat, counted: bool, op: Op) {
    match op
    case ReadOp(off, n) =>
      if off > size then NoReturn(p, size, at, size, off) else NoReturn(p, size, at, off, Min(off + n, size))
    case WriteOp(off, data) => NoReturn(p, size, at, Min(off, size), off + |data|)
    case SizeOp(v) =>
      if v > size then Stays(p, size, at, size)
      else if v == size then true
      else if v == 0 then at == 0
      else Stays(p, size, at, v - 1) && (at == (v - 1) / p.CacheBlock() * p.CacheBlock() ==> counted)
    case FlushOp => CanFlush(p, size)
  }

  /**
   An operation that leaves a length the provider can finish and does not come back to a padded last block. A cut into
   the block touched last comes right after a flush or a cut; a cut to nothing while the first block is that block.
   */
  predicate OpFits(p: Provider, size: nat, at: nat, counted: bool, op: Op) {
    && p.Legal(SizeAfter(size, op)) && Fits(p.CacheBlock(), SizeAfter(size, op))
    && Touches(p, size, at, counted, op)
  }

  /** The backing stream counts all bytes. */
  predicate CountedAfter(size: nat, op: Op) {
    op.FlushOp? || (op.SizeOp? && op.size < size)
  }

  /** A condition on the operations alone. */
  predicate OpsFit(p: Provider, size: nat, at: nat, counted: bool, ops: seq<Op>)
    decreases ops
  {
    ops != [] ==>
      && OpFits(p, size, at, counted, ops[0])
      && OpsFit(p, SizeAfter(size, ops[0]), BlockAfter(p.CacheBlock(), size, at, ops[0]), CountedAfter(size, ops[0]),
                ops[1..])
  }

  /** Without padding only the lengths matter, and where a cut goes. */
  lemma UnpaddedFits(p: Provider, size: nat, at: nat, counted: bool, op: Op)
    requires !p.Padded() && p.Legal(SizeAfter(size, op)) && Fits(p.CacheBlock(), SizeAfter(size, op))
    ensures op.ReadOp? || op.WriteOp? ==> OpFits(p, size, at, counted, op)
    ensures op.FlushOp? && CanFlush(p, size) ==> OpFits(p, size, at, counted, op)
    ensures op.SizeOp? && (op.size >= size || (counted && op.size > 0)) ==> OpFits(p, size, at, counted, op)
  {
  }

  /** At a length that can be finished, the block touched last decides where the cache can go. */
  lemma MovesExact(c: Cache, size: nat)
    requires c.simple.provider.Legal(size)
    ensures forall pos :: CanMove(c, size, pos) <==> Stays(c.simple.provider, size, c.start, pos)
    ensures forall from, to :: CanRun(c, size, from, to) <==> NoReturn(c.simple.provider, size, c.start, from, to)
  {
  }

  /** The condition on the operation is the condition on the cache. */
  lemma OpGoesThrough(c: Cache, size: nat, counted: bool, op: Op)
    requires c.simple.provider.Legal(size) && OpFits(c.simple.provider, size, c.start, counted, op)
    requires counted ==> c.simple.contentSize == size
    ensures op.ReadOp? ==> CanReadAt(c, size, op.off, op.n)
    ensures op.WriteOp? ==> CanWriteAt(c, size, op.off, |op.data|)
    ensures op.SizeOp? && op.size > size ==> CanWriteAt(c, size, op.size, 0) && CanMove(c, size, size)
    ensures op.SizeOp? && 0 < op.size < size ==> CanShrink(c, size, op.size) && CanMove(c, size, op.size - 1)
    ensures op.SizeOp? && op.size == 0 < size ==> c.start == 0
  {
    hide CanRun, CanMove, Stays, NoReturn, Provider.Legal;
    MovesExact(c, size);
    if op.SizeOp? && op.size > size {
      TailRuns(c, size, op.size);
    }
  }

  /**
   No operation is shut out that the cache can carry out: at a legal length the condition on the block touched last says
   exactly what the conditions on the cache say.
   */
  lemma TouchesExact(c: Cache, size: nat, counted: bool, op: Op)
    requires c.simple.provider.Legal(size)
    ensures var touches := Touches(c.simple.provider, size, c.start, counted, op);
            match op
            case ReadOp(off, n) => touches <==> CanReadAt(c, size, off, n)
            case WriteOp(off, data) => touches <==> CanWriteAt(c, size, off, |data|)
            case SizeOp(v) =>
              if v > size then touches <==> CanMove(c, size, size)
              else if v == size then touches
              else if v == 0 then touches <==> c.start == 0
              else touches <==> CanMove(c, size, v - 1)
                                && (c.start == (v - 1) / c.BlockSize() * c.BlockSize() ==> counted)
            case FlushOp => touches <==> c.simple.provider.mode != Cbc512NoPadding || size > 0
  {
    hide CanRun, CanMove, Stays, NoReturn, Provider.Legal;
    MovesExact(c, size);
  }

  /** One operation, whatever the mode. */
  method Step(s: BlockBasedProtectedStream, op: Op, ghost counted: bool) returns (out: seq<byte>)
    requires s.Valid() && s.writer && s.simple.provider.Legal(|s.content|)
    requires OpFits(s.simple.provider, |s.content|, s.Cached().start, counted, op)
    requires counted ==> s.simple.contentSize == |s.content|
    modifies s.Footprint()
    ensures s.Valid() && s.content == ArrayAfter(old(s.content), op)
    ensures out == ArrayOutput(old(s.content), op)
    ensures CountedAfter(|old(s.content)|, op) ==> s.simple.contentSize == |s.content|
    ensures s.Cached().start == BlockAfter(s.Cached().BlockSize(), |old(s.content)|, old(s.Cached()).start, op)
    ensures op.FlushOp? ==> s.Region() == s.simple.provider.Cipher(s.content, 0, true)
  {
    hide Denotes, CanWriteAt, CanReadAt, CanMove, CanShrink, CanRun, SameContainer, CanFlush, ArrayWrite, Reloads,
      TouchedLast, LostReadAt, Base, Recovered, Touches;
    OpGoesThrough(s.Cached(), |s.content|, counted, op);
    FitsWithin(s.simple.provider, |s.content|, s.Cached().start, counted, op);
    out := [];
    match op
    case ReadOp(off, n) =>
      var r := s.ReadAsync(n, off);
      out := r.value;
    case WriteOp(off, data) =>
      var r := s.WriteAsync(data, off);
    case SizeOp(size) =>
      SizeGoesThrough(s.Cached(), s.content, size);
      var r := s.Size(size);
    case FlushOp =>
      var r := s.FlushAsync();
      assert r.Ok?;
  }

  lemma FitsWithin(p: Provider, size: nat, at: nat, counted: bool, op: Op)
    requires OpFits(p, size, at, counted, op)
    ensures Fits(p.CacheBlock(), SizeAfter(size, op))
    ensures op.FlushOp? ==> CanFlush(p, size)
  {
  }

  lemma SizeGoesThrough(c: Cache, content: seq<byte>, value: nat)
    requires c.Shape()
    requires value > |content| ==> CanWriteAt(c, |content|, value, 0) && CanMove(c, |content|, |content|)
    requires 0 < value < |content| ==> CanShrink(c, |content|, value) && CanMove(c, |content|, value - 1)
    requires value == 0 < |content| ==> c.start == 0
    ensures value != |content| ==> SizeReaches(c, content, value)
    ensures value <= |content| ==> CutContent(c, content, value) == content[..value]
    ensures value > |content| ==> Base(c, content, value, 0) == content
  {
    hide CanMove, CanWriteAt, Reloads, Recovered, Seen, Rest;
  }

  /**
   A run of operations that never comes back to a padded last block it has left: it reads and leaves what the same run
   on a plain byte array reads and leaves, in every mode.
   */
  method Run(s: BlockBasedProtectedStream, ops: seq<Op>) returns (outs: seq<seq<byte>>)
    requires s.Valid() && s.writer && s.content == []
    requires OpsFit(s.simple.provider, 0, s.Cached().start, false, ops)
    modifies s.Footprint()
    ensures s.Valid()
    ensures (s.content, outs) == ArrayRun([], ops)
    ensures ops != [] && ops[|ops| - 1].FlushOp? ==> s.Region() == s.simple.provider.Cipher(s.content, 0, true)
  {
    hide Denotes, OpFits, ArrayAfter, ArrayOutput, CountedAfter, ArrayRun, Fits, SizeAfter, BlockAfter;
    outs := [];
    ghost var counted := false;
    assert ops[0..] == ops;
    for i := 0 to |ops|
      invariant s.Valid() && s.simple.provider.Legal(|s.content|)
      invariant OpsFit(s.simple.provider, |s.content|, s.Cached().start, counted, ops[i..])
      invariant counted ==> s.simple.contentSize == |s.content|
      invariant ArrayRun([], ops).0 == ArrayRun(s.content, ops[i..]).0
      invariant ArrayRun([], ops).1 == outs + ArrayRun(s.content, ops[i..]).1
      invariant i > 0 && ops[i - 1].FlushOp? ==> s.Region() == s.simple.provider.Cipher(s.content, 0, true)
    {
      var op := ops[i];
      ghost var before, rest := s.content, ops[i + 1..];
      assert ops[i..][0] == op && ops[i..][1..] == rest && ops[i..] == [op] + rest;
      OpLegal(s.simple.provider, |before|, s.Cached().start, counted, op);
      SizeAfterIs(before, op);
      var out := Step(s, op, counted);
      counted := CountedAfter(|before|, op);
      RunUnfolds(before, op, rest, outs);
      outs := outs + [out];
    }
    RunOfNothing(s.content, ops[|ops|..], outs);
  }

  lemma RunOfNothing(c: seq<byte>, ops: seq<Op>, outs: seq<seq<byte>>)
    requires ops == []
    ensures ArrayRun(c, ops).0 == c && outs + ArrayRun(c, ops).1 == outs
  {
  }

  /** One operation out of a run. */
  lemma RunUnfolds(c: seq<byte>, op: Op, rest: seq<Op>, outs: seq<seq<byte>>)
    ensures var whole := ArrayRun(c, [op] + rest);
            var after := ArrayRun(ArrayAfter(c, op), rest);
            && whole.0 == after.0
            && outs + whole.1 == outs + [ArrayOutput(c, op)] + after.1
  {
    hide ArrayAfter, ArrayOutput;
    assert ([op] + rest)[1..] == rest;
  }

  lemma OpLegal(p: Provider, size: nat, at: nat, counted: bool, op: Op)
    requires OpFits(p, size, at, counted, op)
    ensures p.Legal(SizeAfter(size, op))
  {
  }

  // ---------------------------------------------------------------- coming back to a padded last block

  /**
   Writes two blocks, reads in the first and comes back to the last. What is read back is decided by how the data ends.
   */
  method ComeBack(s: BlockBasedProtectedStream, data: seq<byte>, n: nat) returns (r: Result<seq<byte>>)
    requires s.Valid() && s.writer && s.simple.provider.Padded() && s.content == [] && s.Cached().start == NO_BLOCK
    requires 4096 < |data| <= 8192 && n > 0
    modifies s.Footprint()
    ensures r.Ok? <==> Reloads(4096, data)
    ensures r.Ok? ==> r.value == ArrayRead(data[..Recovered(4096, data)], 4096, n)
  {
    hide Denotes, CanReadAt, CanWriteAt, SameContainer, ArrayRead, Reloads, Recovered;
    TwoBlocks(s.Cached(), |data|);
    var written := s.WriteAsync(data, 0);
    WroteAll(data);
    FirstBlock(s.Cached(), |data|);
    var front := s.ReadAsync(1, 0);
    Left(s.Cached(), |data|, n);
    r := s.ReadAsync(n, 4096);
  }

  /** Writes into the last block after coming back to it: a write that ends before the end shortens the stream. */
  method ComeBackWriting(s: BlockBasedProtectedStream, data: seq<byte>, patch: seq<byte>) returns (r: Result<nat>)
    requires s.Valid() && s.writer && s.simple.provider.Padded() && s.content == [] && s.Cached().start == NO_BLOCK
    requires 4096 < |data| <= 8192 && patch != [] && 4096 + |patch| < |data|
    modifies s.Footprint()
    ensures r.Ok? <==> Reloads(4096, data)
    ensures r.Ok? ==> s.Sound() && s.SizeInner() == Max(Recovered(4096, data), 4096 + |patch|) < |data|
  {
    hide Denotes, CanReadAt, CanWriteAt, SameContainer, ArrayRead, Reloads, Recovered, Base, Cache.GetSizeInternal,
      CachedBlock.GetSizeInternal;
    TwoBlocks(s.Cached(), |data|);
    var written := s.WriteAsync(data, 0);
    WroteAll(data);
    FirstBlock(s.Cached(), |data|);
    var front := s.ReadAsync(1, 0);
    LeftForWriting(s.Cached(), |data|, |patch|);
    r := s.WriteAsync(patch, 4096);
  }

  lemma TwoBlocks(c: Cache, size: nat)
    requires c.simple.provider.Padded() && c.start == NO_BLOCK && 4096 < size <= 8192
    ensures CanWriteAt(c, 0, 0, size)
    ensures Fits(c.BlockSize(), size) && c.BlockSize() == 4096
    ensures TouchedLast(4096, c.start, 0, size) == 4096
  {
  }

  lemma WroteAll(data: seq<byte>)
    ensures ArrayWrite([], 0, data) == data
  {
  }

  lemma FirstBlock(c: Cache, size: nat)
    requires c.simple.provider.Padded() && 4096 < size <= 8192
    ensures CanReadAt(c, size, 0, 1) && ReadStart(c, size, 0, 1) == 0
  {
  }

  lemma Left(c: Cache, size: nat, n: nat)
    requires c.simple.provider.Padded() && c.start == 0 && 4096 < size <= 8192 && n > 0
    ensures !CanReadAt(c, size, 4096, n)
  {
  }

  lemma LeftForWriting(c: Cache, size: nat, n: nat)
    requires c.simple.provider.Padded() && c.start == 0 && n > 0 && 4096 + n < size <= 8192
    ensures !CanWriteAt(c, size, 4096, n) && Fits(c.BlockSize(), 4096 + n)
  {
  }

  /** With 5000 bytes, reading back throws. */
  lemma FiveThousand(data: seq<byte>)
    requires |data| == 5000
    ensures !Reloads(4096, data)
  {
    assert LastStart(4096, 5000) == 4096;
  }

  /** The whole run on the cache: 5000 bytes written, one read in the first block, and the last block cannot be read. */
  lemma FiveThousandLost(c: Cache, data: seq<byte>, n: nat)
    requires Denotes(true, c, []) && c.simple.provider.Padded() && c.start == NO_BLOCK && |data| == 5000 && n > 0
    ensures c.Shape() && WriteLoop(c, 0, data).Ok?
    ensures var c1 := WriteLoop(c, 0, data).value.1;
            && Denotes(true, c1, data) && ReadLoop(c1, 0, 1).Ok?
            && var (front, c2) := ReadLoop(c1, 0, 1).value;
            && front == [data[0]] && Denotes(true, c2, data) && ReadLoop(c2, 4096, n).Err?
  {
    hide TailPending, Committed, Unloaded, Emptied, WriteLoop, ReadLoop, Reloads, SameContainer, TouchedLast, CanRun;
    TwoBlocks(c, 5000);
    WriteLoopRuns(c, [], 0, data);
    WroteAll(data);
    var c1 := WriteLoop(c, 0, data).value.1;
    SameProvider(c, c1);
    FirstBlock(c1, 5000);
    ReadLoopRuns(c1, data, 0, 1);
    var c2 := ReadLoop(c1, 0, 1).value.1;
    SameProvider(c1, c2);
    Left(c2, 5000, n);
    ReadLoopLost(c2, data, 4096, n);
    FiveThousand(data);
  }

  /**
   With 4128 bytes, the last of them a 1, reading back returns what stands before that byte: the first ten bytes of
   the block are right, the last one is never read.
   */
  lemma EndsLikePadding(data: seq<byte>)
    requires |data| == 4128 && data[4127] == 1
    ensures Reloads(4096, data) && Recovered(4096, data) == 4127
    ensures ArrayRead(data[..4127], 4096, 10) == ArrayRead(data, 4096, 10)
    ensures |ArrayRead(data[..4127], 4096, 32)| == 31 && |ArrayRead(data, 4096, 32)| == 32
  {
    assert LastStart(4096, 4128) == 4096;
    var tail := TailOf(4096, data);
    assert tail[|tail| - 1] == 1;
    assert Unpad(tail) == Ok(tail[..31]);
  }

  // ---------------------------------------------------------------- cutting what has not been written out

  /** A hundred bytes into a new stream, and a cut to fifty without a flush: the cut never returns, in every mode. */
  lemma CutTooSoon(c: Cache, data: seq<byte>)
    requires Denotes(true, c, []) && c.start == NO_BLOCK && |data| == 100
    ensures c.Shape() && WriteLoop(c, 0, data).Ok?
    ensures var d := WriteLoop(c, 0, data).value.1;
            Denotes(true, d, data) && d.Cut(50) == Err(Blocked)
  {
    hide TailPending, Committed, Emptied, WriteLoop, Cache.Cut, Cache.UpdateBlock, Cache.WriteToBlock, Provider.Cipher,
      Reloads, SameContainer, Cache.BlockSize;
    FirstRun(c, 100);
    WriteLoopRuns(c, [], 0, data);
    WroteAll(data);
    WriteMove(c, [], 0, data);
    var m := c.UpdateBlock(0).value;
    var k, d := m.Room(0, 100), m.WriteToBlock(data, 0);
    WriteLoopStep(c, m, d, 0, data, k);
    SameProvider(c, d);
    WriteLoopEnds(d, d, k, data[k..]);
    FirstUncounted(c, m, data);
    FirstBlockTouched(d, 50);
    CutExact(d, data, 50);
  }

  lemma FirstRun(c: Cache, size: nat)
    requires Denotes(true, c, []) && c.start == NO_BLOCK && 0 < size <= 512
    ensures c.Shape() && CanRun(c, 0, 0, size) && CanMove(c, 0, 0) && Fits(c.BlockSize(), size)
  {
    hide Provider.Cipher;
  }

  lemma FirstUncounted(c: Cache, m: Cache, data: seq<byte>)
    requires Denotes(true, c, []) && c.start == NO_BLOCK && c.UpdateBlock(0) == Ok(m) && m.Shape()
    ensures m.WriteToBlock(data, 0).simple.contentSize == 0
  {
    hide Provider.Cipher, Simple.ReadInternal;
  }

  lemma FirstBlockTouched(d: Cache, newSize: nat)
    requires d.start == 0 && 0 < newSize <= 512 && d.simple.contentSize == 0
    ensures CanMove(d, 100, newSize - 1) && !LastIsCounted(d, newSize)
  {
  }
}
