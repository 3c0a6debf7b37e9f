/**
 What a writer's cache means. `content` is the plain byte array that the cache and the enciphered bytes
 behind it stand for; every step below keeps it or changes it as a plain array would.
 */
module CacheTheory {
  import opened Bytes
  import opened Wrappers
  import opened Providers
  import opened CacheModel

  // ---------------------------------------------------------------- block arithmetic

  lemma BlockOf(bs: nat, pos: nat)
    requires bs == 512 || bs == 4096
    ensures pos / bs * bs <= pos < pos / bs * bs + bs
  {
  }

  lemma BlockUnique(bs: nat, j: nat, pos: nat)
    requires bs == 512 || bs == 4096
    requires j * bs <= pos < j * bs + bs
    ensures pos / bs == j
  {
    if bs == 512 {
      assert pos / 512 == j;
    } else {
      assert pos / 4096 == j;
    }
  }

  ghost predicate OnBlock(bs: nat, pos: nat)
    requires bs > 0
  {
    pos / bs * bs == pos
  }

  // ---------------------------------------------------------------- ciphertext by cache blocks

  /** The finished ciphertext of a content. */
  function Whole(p: Provider, content: seq<byte>): seq<byte> {
    p.Cipher(content, 0, true)
  }

  lemma BlocksLegal(p: Provider, j: nat, x: nat)
    ensures p.Aligned(j * p.CacheBlock())
    ensures p.Legal(j * p.CacheBlock() + x) == p.Legal(x)
  {
    match p.mode
    case Cbc4k => BlocksAreAligned(p, j, x); assert p.Blocks(j) == j * 4096;
    case Ecb => BlocksAreAligned(p, 256 * j, x); assert p.Blocks(256 * j) == j * 4096;
    case Cbc512NoPadding => BlocksAreAligned(p, j, x); assert p.Blocks(j) == j * 512;
  }

  /** The ciphertext splits at any cache block boundary. */
  lemma Split(p: Provider, a: seq<byte>, b: seq<byte>, n: nat, j: nat, isFinal: bool)
    requires |a| == j * p.CacheBlock()
    requires p.Encrypt(b, n + j, isFinal).Ok?
    ensures p.Encrypt(a, n, false).Ok? && p.Encrypt(a + b, n, isFinal).Ok?
    ensures p.Cipher(a + b, n, isFinal) == p.Cipher(a, n, false) + p.Cipher(b, n + j, isFinal)
    ensures |p.Cipher(a, n, false)| == |a|
  {
    hide Cbc4kEncrypt, Cbc512Encrypt, Encrypt4k, Encrypt512;
    var k := if p.mode.Ecb? then 256 * j else j;
    assert |a| == p.Blocks(k);
    EncryptComposition(p, a, b, n, k, isFinal);
    assert p.mode.Ecb? ==> p.Encrypt(b, n + k, isFinal) == p.Encrypt(b, n + j, isFinal);
    CipherLength(p, a, n, false);
  }

  /** The finished ciphertext from one block boundary on. */
  lemma SplitTail(p: Provider, content: seq<byte>, s: nat, j: nat)
    requires s == j * p.CacheBlock() && s <= |content| && p.Legal(|content|)
    ensures && p.Encrypt(content[..s], 0, false).Ok?
            && p.Encrypt(content[s..], j, true).Ok?
            && Whole(p, content) == p.Cipher(content[..s], 0, false) + p.Cipher(content[s..], j, true)
            && |p.Cipher(content[..s], 0, false)| == s
            && |Whole(p, content)| == p.CipherSize(|content|)
  {
    BlocksLegal(p, j, |content| - s);
    Split(p, content[..s], content[s..], 0, j, true);
    assert content == content[..s] + content[s..];
    CipherLength(p, content, 0, true);
  }

  lemma SplitHead(p: Provider, tail: seq<byte>, j: nat)
    requires p.CacheBlock() <= |tail| && p.Legal(|tail|)
    ensures var bs := p.CacheBlock();
            && p.Encrypt(tail[..bs], j, false).Ok?
            && p.Encrypt(tail[bs..], j + 1, true).Ok?
            && p.Cipher(tail, j, true) == p.Cipher(tail[..bs], j, false) + p.Cipher(tail[bs..], j + 1, true)
            && |p.Cipher(tail[..bs], j, false)| == bs
  {
    var bs := p.CacheBlock();
    BlocksLegal(p, 1, |tail| - bs);
    Split(p, tail[..bs], tail[bs..], j, 1, true);
    assert tail == tail[..bs] + tail[bs..];
  }

  /** The finished ciphertext around one full block. */
  lemma SplitAround(p: Provider, content: seq<byte>, s: nat, j: nat)
    requires s == j * p.CacheBlock() && s + p.CacheBlock() <= |content| && p.Legal(|content|)
    ensures var e := s + p.CacheBlock();
            && p.Encrypt(content[..s], 0, false).Ok?
            && p.Encrypt(content[s..e], j, false).Ok?
            && p.Encrypt(content[e..], j + 1, true).Ok?
            && Whole(p, content) == p.Cipher(content[..s], 0, false) + p.Cipher(content[s..e], j, false)
                                    + p.Cipher(content[e..], j + 1, true)
            && |p.Cipher(content[..s], 0, false)| == s
            && |p.Cipher(content[s..e], j, false)| == p.CacheBlock()
            && |Whole(p, content)| == p.CipherSize(|content|)
  {
    hide *;
    var bs := p.CacheBlock();
    var e := s + bs;
    BlocksLegal(p, j, |content| - s);
    SplitTail(p, content, s, j);
    SplitHead(p, content[s..], j);
    assert content[s..][..bs] == content[s..e] && content[s..][bs..] == content[e..];
  }

  // ---------------------------------------------------------------- what a writer's cache stands for

  /** Sizes whose block numbers fit the 32-bit integers of the source. */
  predicate Fits(bs: nat, size: nat) {
    size < bs * TWO_32
  }

  /** Nothing has been cached yet. */
  ghost predicate Unloaded(c: Cache, content: seq<byte>)
    requires c.Shape()
  {
    && c.start == NO_BLOCK && c.size == 0 && !c.pending
    && c.simple.contentSize == 0 && content == []
    && c.simple.Region() == if c.finalWritten then Whole(c.simple.provider, []) else []
  }

  /** The last block is cached and waits to be written; the blocks before it are enciphered. */
  ghost predicate TailPending(c: Cache, content: seq<byte>)
    requires c.Shape()
  {
    var p, region := c.simple.provider, c.simple.Region();
    && c.pending && !c.finalWritten
    && 0 < c.size && c.start + c.size == |content|
    && c.start <= c.simple.contentSize <= |content|
    && content[c.start..] == c.buffer[..c.size]
    && c.start <= |region| <= p.CipherSize(c.simple.contentSize)
    && region[..c.start] == p.Cipher(content[..c.start], 0, false)
  }

  /** Every block is enciphered, except that a cached block before the last may wait to be written again. */
  ghost predicate Committed(c: Cache, content: seq<byte>)
    requires c.Shape()
  {
    var p, region, bs := c.simple.provider, c.simple.Region(), c.BlockSize();
    && c.finalWritten
    && c.simple.contentSize == |content| && p.Legal(|content|)
    && (c.start < |content| || (c.start == 0 && content == []))
    && c.size == Min(bs, |content| - c.start)
    && c.buffer[..c.size] == content[c.start..c.start + c.size]
    && |region| == p.CipherSize(|content|)
    && if c.pending then
         && c.start + bs < |content|
         && region[..c.start] == p.Cipher(content[..c.start], 0, false)
         && region[c.start + bs..] == p.Cipher(content[c.start + bs..], c.start / bs + 1, true)
       else
         region == Whole(p, content)
  }

  /** The stream has been cut to nothing; the first block is cached and empty. */
  ghost predicate Emptied(c: Cache, content: seq<byte>)
    requires c.Shape()
  {
    && content == [] && c.start == 0 && c.size == 0 && c.simple.contentSize == 0
    && |c.simple.Region()| <= c.simple.provider.CipherSize(0)
  }

  /** The cache of a writer whose stream denotes `content`. */
  ghost predicate Writer(c: Cache, content: seq<byte>) {
    && c.Shape()
    && Fits(c.BlockSize(), |content|)
    && (|| Unloaded(c, content)
        || Emptied(c, content)
        || (OnBlock(c.BlockSize(), c.start) && (TailPending(c, content) || Committed(c, content))))
  }

  // Stations between two blocks.

  /** Nothing is pending and the ciphertext is finished. */
  ghost predicate Clean(c: Cache, content: seq<byte>)
    requires c.Shape()
  {
    && !c.pending && c.finalWritten && content != []
    && c.simple.contentSize == |content| && c.simple.provider.Legal(|content|)
    && c.simple.Region() == Whole(c.simple.provider, content)
  }

  /** Nothing is pending and the content, a whole number of blocks, is enciphered. */
  ghost predicate Frontier(c: Cache, content: seq<byte>)
    requires c.Shape()
  {
    var p, region := c.simple.provider, c.simple.Region();
    && !c.pending && c.simple.contentSize == |content| && OnBlock(c.BlockSize(), |content|)
    && |content| <= |region| <= p.CipherSize(|content|)
    && region[..|content|] == p.Cipher(content, 0, false)
  }

  /** An empty block after the content is cached, for the write that follows. */
  ghost predicate AtEnd(c: Cache, content: seq<byte>) {
    && c.Shape()
    && Fits(c.BlockSize(), |content|)
    && Frontier(c, content) && c.start == |content| && c.size == 0
  }

  lemma CipherSizeMonotone(p: Provider, m: nat, n: nat)
    requires m <= n
    ensures m <= p.CipherSize(m) <= p.CipherSize(n)
  {
  }

  // ---------------------------------------------------------------- block numbers

  /** Block numbers are exact and the reported size is the content's, so the decrement never fires. */
  lemma NumbersExact(c: Cache, content: seq<byte>, pos: nat)
    requires Writer(c, content) && pos <= |content|
    ensures c.CalculateBlockNumber(pos) == pos / c.BlockSize()
    ensures c.GetSizeInternal() == |content|
    ensures c.start != NO_BLOCK ==> c.CalculateBlockNumber(c.start) == c.start / c.BlockSize()
  {
    hide Provider.Cipher;
    SmallNumber(c, pos);
    BlockOf(c.BlockSize(), pos);
    if c.start != NO_BLOCK {
      SmallNumber(c, c.start);
      BlockOf(c.BlockSize(), c.start);
    }
  }

  lemma SmallNumber(c: Cache, pos: nat)
    requires Fits(c.BlockSize(), pos)
    ensures pos / c.BlockSize() % TWO_32 == pos / c.BlockSize()
  {
    BlockOf(c.BlockSize(), pos);
  }

  // ---------------------------------------------------------------- moving the cache

  /** Writing the pending tail finishes the ciphertext when the cache moves back. */
  lemma EvictTailBackward(c: Cache, content: seq<byte>, pos: nat)
    requires Writer(c, content) && c.start != NO_BLOCK && TailPending(c, content) && pos < c.start
    ensures c.Evict(pos).Ok? <==> c.simple.provider.Legal(|content|)
    ensures c.Evict(pos).Ok? ==> Clean(c.Evict(pos).value, content) && SameContainer(c, c.Evict(pos).value)
  {
    hide Provider.Cipher;
    var p, j := c.simple.provider, c.start / c.BlockSize();
    var tail := c.buffer[..c.size];
    NumbersExact(c, content, |content|);
    BlocksLegal(p, j, c.size);
    CipherSizeMonotone(p, c.simple.contentSize, |content|);
    WriteAt(c.simple, tail, c.start, j, true);
    if p.Legal(|content|) {
      SplitTail(p, content, c.start, j);
      CipherLength(p, tail, j, true);
    }
  }

  /** Writing a full pending tail as the cache moves past it leaves whole blocks. */
  lemma EvictTailForward(c: Cache, content: seq<byte>)
    requires Writer(c, content) && c.start != NO_BLOCK && TailPending(c, content)
    requires |content| == c.start + c.BlockSize()
    ensures c.Evict(|content|).Ok?
    ensures Frontier(c.Evict(|content|).value, content) && SameContainer(c, c.Evict(|content|).value)
  {
    hide Provider.Cipher, Simple.WriteInternal;
    var p, j, bs := c.simple.provider, c.start / c.BlockSize(), c.BlockSize();
    var tail := c.buffer[..c.size];
    NumbersExact(c, content, |content|);
    BlocksLegal(p, 1, 0);
    CipherSizeMonotone(p, c.simple.contentSize, |content|);
    WriteAt(c.simple, tail, c.start, j, false);
    Split(p, content[..c.start], tail, 0, j, false);
    CipherLength(p, tail, j, false);
    assert content == content[..c.start] + tail;
    assert (j + 1) * bs == |content|;
    BlockUnique(bs, j + 1, |content|);
  }

  /** Writing a cached block before the last leaves the finished ciphertext. */
  lemma MiddleWritten(c: Cache, content: seq<byte>)
    requires Writer(c, content) && c.start != NO_BLOCK && Committed(c, content)
    requires c.start + c.BlockSize() < |content|
    ensures var r := c.simple.WriteInternal(c.buffer[..c.size], c.start, c.start / c.BlockSize(), false);
            && r.Ok?
            && r.value.Region() == Whole(c.simple.provider, content)
            && |Whole(c.simple.provider, content)| == c.simple.provider.CipherSize(|content|)
            && r.value.contentSize == |content|
            && r.value.backing[..c.simple.contentStart] == c.simple.backing[..c.simple.contentStart]
  {
    hide Provider.Cipher, Simple.WriteInternal, Provider.Encrypt;
    var p, j := c.simple.provider, c.start / c.BlockSize();
    BlocksLegal(p, 1, 0);
    SplitAround(p, content, c.start, j);
    WriteAt(c.simple, c.buffer[..c.size], c.start, j, false);
  }

  /** So does evicting it when it is pending. */
  lemma EvictMiddle(c: Cache, content: seq<byte>, pos: nat)
    requires Writer(c, content) && c.start != NO_BLOCK && Committed(c, content) && c.pending
    ensures c.Evict(pos).Ok? && Clean(c.Evict(pos).value, content)
    ensures SameContainer(c, c.Evict(pos).value)
  {
    hide Provider.Cipher, Simple.WriteInternal;
    NumbersExact(c, content, |content|);
    MiddleWritten(c, content);
  }

  /** What never changes while the cache moves. */
  ghost predicate SameContainer(c: Cache, d: Cache) {
    && d.simple.provider == c.simple.provider
    && d.simple.contentStart == c.simple.contentStart
    && |d.buffer| == |c.buffer|
    && (c.simple.Shape() && d.simple.Shape() ==>
          d.simple.backing[..c.simple.contentStart] == c.simple.backing[..c.simple.contentStart])
  }

  lemma SameContainerReflexive(c: Cache)
    ensures SameContainer(c, c)
  {
  }

  lemma SameContainerTransitive(c: Cache, d: Cache, e: Cache)
    requires SameContainer(c, d) && SameContainer(d, e) && c.simple.Shape() && d.simple.Shape() && e.simple.Shape()
    ensures SameContainer(c, e)
  {
  }

  /** A write of enciphered data lands in the region and nowhere else. */
  lemma WriteAt(s: Simple, data: seq<byte>, offset: nat, n: nat, isFinal: bool)
    requires s.Shape() && offset <= |s.Region()|
    ensures s.WriteInternal(data, offset, n, isFinal).Ok? <==>
              s.provider.GetCipherTextSize(|data|).Ok? && s.provider.Encrypt(data, n, isFinal).Ok?
    ensures var r := s.WriteInternal(data, offset, n, isFinal);
            r.Ok? ==>
              && r.value.Region() == Splice(s.Region(), offset, s.provider.Cipher(data, n, isFinal))
              && r.value.contentSize == Max(s.contentSize, offset + |data|)
              && r.value.backing[..s.contentStart] == s.backing[..s.contentStart]
  {
    hide Provider.Cipher;
    var r := s.WriteInternal(data, offset, n, isFinal);
    if r.Ok? {
      var cipher := s.provider.Cipher(data, n, isFinal);
      var at := s.contentStart + offset;
      assert r.value.backing == Splice(s.backing, at, cipher);
      assert s.Region()[..offset] == s.backing[s.contentStart..at];
      assert r.value.Region() == Splice(s.Region(), offset, cipher);
    }
  }

  /** A read deciphers the bytes of the region at `offset`, up to the content size. */
  lemma ReadAt(s: Simple, buffer: seq<byte>, offset: nat, n: nat, isFinal: bool)
    requires s.Shape() && offset <= s.contentSize <= |s.Region()| && s.contentSize < TWO_64
    ensures var cipher := s.Region()[offset..Min(offset + |buffer|, s.contentSize)];
            var r := s.ReadInternal(buffer, offset, n, isFinal);
            && |cipher| <= |buffer|
            && (cipher == [] ==> r == Ok((buffer, 0)))
            && (cipher != [] ==> (r.Ok? <==> s.provider.Decrypt(cipher, n, isFinal).Ok?))
            && (cipher != [] && r.Ok? ==>
                  var plain := s.provider.Decrypt(cipher, n, isFinal).value;
                  r.value.1 == |plain| && r.value.0[..|plain|] == plain)
  {
    hide Provider.Decipher;
    var last := Min(offset + |buffer|, s.contentSize);
    assert s.Region()[offset..last] == s.backing[s.contentStart + offset..s.contentStart + last];
    var cipher := s.Region()[offset..last];
    if cipher != [] && s.provider.Decrypt(cipher, n, isFinal).Ok? {
      DecryptLength(s.provider, cipher, n, isFinal);
      var plain := s.provider.Decrypt(cipher, n, isFinal).value;
      assert (plain + buffer[|plain|..])[..|plain|] == plain;
    }
  }

  lemma LoadMiddle(c: Cache, content: seq<byte>, j: nat)
    requires c.Shape() && Clean(c, content) && Fits(c.BlockSize(), |content|)
    requires j * c.BlockSize() + c.BlockSize() < |content|
    ensures c.Load(j).Ok?
    ensures var d := c.Load(j).value;
            d.start == j * c.BlockSize() && Committed(d, content) && !d.pending && SameContainer(c, d)
  {
    hide Provider.Cipher, Provider.Decipher;
    var p, bs, s := c.simple.provider, c.BlockSize(), j * c.BlockSize();
    SplitAround(p, content, s, j);
    var block := content[s..s + bs];
    assert Whole(p, content)[s..s + bs] == p.Cipher(block, j, false);
    ReadAt(c.simple, c.buffer, s, j, false);
    RoundTrip(p, block, j, false);
  }

  lemma LoadTail(c: Cache, content: seq<byte>, j: nat)
    requires c.Shape() && Clean(c, content) && Fits(c.BlockSize(), |content|) && !c.simple.provider.Padded()
    requires j * c.BlockSize() < |content| <= j * c.BlockSize() + c.BlockSize()
    ensures c.Load(j).Ok?
    ensures var d := c.Load(j).value;
            d.start == j * c.BlockSize() && Committed(d, content) && !d.pending && SameContainer(c, d)
  {
    hide Provider.Cipher, Provider.Decipher;
    var p, s := c.simple.provider, j * c.BlockSize();
    SplitTail(p, content, s, j);
    var block := content[s..];
    assert Whole(p, content)[s..|content|] == p.Cipher(block, j, true);
    ReadAt(c.simple, c.buffer, s, j, true);
    RoundTrip(p, block, j, true);
    assert content[s..s + |block|] == block;
  }

  /**
   In the padded mode a writer cannot get its last block back: the content size counts plain bytes, so the
   padding stays unread and deciphering fails or yields too few bytes.
   */
  lemma LoadPaddedTailFails(c: Cache, content: seq<byte>, j: nat)
    requires c.Shape() && Clean(c, content) && Fits(c.BlockSize(), |content|) && c.simple.provider.Padded()
    requires j * c.BlockSize() < |content| <= j * c.BlockSize() + c.BlockSize()
    ensures c.Load(j).Ok? ==> c.Load(j).value.size < |content| - j * c.BlockSize()
  {
    hide Provider.Cipher, Provider.Decipher;
    var p, s := c.simple.provider, j * c.BlockSize();
    CipherLength(p, content, 0, true);
    ReadAt(c.simple, c.buffer, s, j, true);
    var cipher := c.simple.Region()[s..|content|];
    if p.Decrypt(cipher, j, true).Ok? {
      DecryptLength(p, cipher, j, true);
    }
  }

  lemma LoadEnd(c: Cache, content: seq<byte>, j: nat)
    requires c.Shape() && Frontier(c, content) && Fits(c.BlockSize(), |content|)
    requires j * c.BlockSize() == |content|
    ensures c.Load(j).Ok?
    ensures AtEnd(c.Load(j).value, content) && SameContainer(c, c.Load(j).value)
  {
    hide Provider.Cipher, Provider.Decipher;
    ReadAt(c.simple, c.buffer, |content|, j, true);
  }

  /** Finished ciphertext of whole blocks is also a frontier. */
  lemma CleanFrontier(c: Cache, content: seq<byte>)
    requires c.Shape() && Clean(c, content) && OnBlock(c.BlockSize(), |content|)
    ensures Frontier(c, content)
  {
    hide Provider.Cipher;
    var p := c.simple.provider;
    SplitTail(p, content, |content|, |content| / c.BlockSize());
    assert content[..|content|] == content;
  }

  lemma UnloadedFrontier(c: Cache)
    requires c.Shape() && Unloaded(c, [])
    ensures Frontier(c, [])
  {
    CipherLength(c.simple.provider, [], 0, false);
    CipherLength(c.simple.provider, [], 0, true);
  }

  // ---------------------------------------------------------------- UpdateBlock

  /** Whether `pos` lies in the last block of the content. */
  predicate InLastBlock(bs: nat, size: nat, pos: nat)
    requires bs > 0
  {
    pos / bs * bs < size <= pos / bs * bs + bs
  }

  /**
   When the cache can move to the block of `pos`: it is there already, or a tail that has to be finished has
   a legal length and, in the padded mode, the target is not the last block.
   */
  predicate CanMove(c: Cache, size: nat, pos: nat) {
    var bs := c.BlockSize();
    || c.start == pos / bs * bs
    || ( && (c.pending && !c.finalWritten && pos < c.start + bs ==> c.simple.provider.Legal(size))
         && !(c.simple.provider.Padded() && InLastBlock(bs, size, pos)))
  }

  /** The cache stands for `content`, between two operations or just before a write at its end. */
  ghost predicate Means(c: Cache, content: seq<byte>) {
    Writer(c, content) || AtEnd(c, content)
  }

  ghost predicate Moved(c: Cache, r: Result<Cache>, content: seq<byte>, pos: nat) {
    && r.Ok?
    && Means(r.value, content)
    && r.value.start == pos / c.BlockSize() * c.BlockSize()
    && (pos < |content| ==> Writer(r.value, content) && pos < r.value.start + r.value.size)
    && (if r.value.start == c.start then r.value == c else r.value.simple.contentSize == |content|)
    && SameContainer(c, r.value)
  }

  lemma LoadFromClean(c: Cache, content: seq<byte>, pos: nat)
    requires c.Shape() && Clean(c, content) && Fits(c.BlockSize(), |content|) && pos <= |content|
    requires c.start != pos / c.BlockSize() * c.BlockSize()
    ensures var r := c.Load(pos / c.BlockSize());
            if c.simple.provider.Padded() && InLastBlock(c.BlockSize(), |content|, pos)
            then r.Err? || !Means(r.value, content)
            else Moved(c, r, content, pos)
  {
    hide Provider.Cipher, Provider.Decipher, Simple.ReadInternal;
    var bs, j := c.BlockSize(), pos / c.BlockSize();
    BlockOf(bs, pos);
    BlockUnique(bs, j, j * bs);
    if j * bs + bs < |content| {
      LoadMiddle(c, content, j);
    } else if j * bs == |content| {
      CleanFrontier(c, content);
      LoadEnd(c, content, j);
    } else if c.simple.provider.Padded() {
      LoadPaddedTailFails(c, content, j);
    } else {
      LoadTail(c, content, j);
    }
  }

  lemma MoveFromUnloaded(c: Cache, content: seq<byte>)
    requires Writer(c, content) && Unloaded(c, content)
    ensures Moved(c, c.UpdateBlock(0), content, 0)
  {
    hide Provider.Cipher, Provider.Decipher, Simple.ReadInternal, Simple.WriteInternal;
    NumbersExact(c, content, 0);
    UnloadedFrontier(c);
    LoadEnd(c, content, 0);
  }

  lemma MoveFromTail(c: Cache, content: seq<byte>, pos: nat)
    requires Writer(c, content) && c.start != NO_BLOCK && TailPending(c, content) && pos <= |content|
    requires c.start != pos / c.BlockSize() * c.BlockSize()
    ensures CanMove(c, |content|, pos) <==> Moved(c, c.UpdateBlock(pos), content, pos)
    ensures CanMove(c, |content|, pos) || c.UpdateBlock(pos).Err? || !Means(c.UpdateBlock(pos).value, content)
  {
    hide Provider.Cipher, Provider.Decipher, Simple.ReadInternal, Simple.WriteInternal;
    var bs, j := c.BlockSize(), pos / c.BlockSize();
    NumbersExact(c, content, pos);
    BlockOf(bs, pos);
    if pos < c.start {
      EvictTailBackward(c, content, pos);
      if c.simple.provider.Legal(|content|) {
        LoadFromClean(c.Evict(pos).value, content, pos);
      }
    } else {
      BlockOf(bs, c.start);
      TailMoveIsForward(bs, c.start, |content|, pos);
      EvictTailForward(c, content);
      LoadEnd(c.Evict(pos).value, content, j);
    }
  }

  lemma TailMoveIsForward(bs: nat, start: nat, size: nat, pos: nat)
    requires (bs == 512 || bs == 4096) && OnBlock(bs, start)
    requires start <= pos <= size <= start + bs && start != pos / bs * bs
    ensures pos == size == start + bs && pos / bs * bs == pos
    ensures !InLastBlock(bs, size, pos)
  {
    if pos < start + bs {
      BlockUnique(bs, start / bs, pos);
      assert false;
    }
    assert (start / bs + 1) * bs == pos;
    BlockUnique(bs, start / bs + 1, pos);
  }

  lemma MoveFromCommitted(c: Cache, content: seq<byte>, pos: nat)
    requires Writer(c, content) && c.start != NO_BLOCK && Committed(c, content) && pos <= |content|
    requires c.start != pos / c.BlockSize() * c.BlockSize()
    ensures CanMove(c, |content|, pos) <==> Moved(c, c.UpdateBlock(pos), content, pos)
    ensures CanMove(c, |content|, pos) || c.UpdateBlock(pos).Err? || !Means(c.UpdateBlock(pos).value, content)
  {
    hide Provider.Cipher, Provider.Decipher, Simple.ReadInternal, Simple.WriteInternal;
    NumbersExact(c, content, pos);
    BlockOf(c.BlockSize(), pos);
    assert content != [];
    if c.pending {
      EvictMiddle(c, content, pos);
      LoadFromClean(c.Evict(pos).value, content, pos);
    } else {
      LoadFromClean(c, content, pos);
    }
  }

  /**
   UpdateBlock keeps the content and caches the block of `pos` exactly when CanMove holds; otherwise it
   throws or leaves a cache that no longer stands for the content.
   */
  lemma UpdateExact(c: Cache, content: seq<byte>, pos: nat)
    requires Writer(c, content) && pos <= |content|
    ensures CanMove(c, |content|, pos) ==> Moved(c, c.UpdateBlock(pos), content, pos)
    ensures !CanMove(c, |content|, pos) ==> c.UpdateBlock(pos).Err? || !Means(c.UpdateBlock(pos).value, content)
  {
    hide Provider.Cipher, Provider.Decipher, Simple.ReadInternal, Simple.WriteInternal, Cache.Evict, Cache.Load;
    if c.start == NO_BLOCK {
      MoveFromUnloaded(c, content);
    } else if c.start != pos / c.BlockSize() * c.BlockSize() {
      if TailPending(c, content) {
        MoveFromTail(c, content, pos);
      } else {
        MoveFromCommitted(c, content, pos);
      }
    } else {
      NumbersExact(c, content, pos);
      BlockOf(c.BlockSize(), pos);
    }
  }

  // ---------------------------------------------------------------- ReadFromBlock and WriteToBlock

  /** A read from the cached block is a read from the content, cut at the end of the block. */
  lemma ReadStep(c: Cache, content: seq<byte>, pos: nat, n: nat)
    requires Writer(c, content) && c.start != NO_BLOCK && c.start <= pos < c.start + c.size
    ensures c.ReadFromBlock(pos, n) == ArrayRead(content, pos, Min(n, c.start + c.size - pos))
  {
    hide Provider.Cipher;
    assert c.start + c.size <= |content| && c.buffer[..c.size] == content[c.start..c.start + c.size];
    CachedSlice(c, content, pos, Min(n, c.start + c.size - pos));
  }

  lemma CachedSlice(c: Cache, content: seq<byte>, pos: nat, k: nat)
    requires c.Shape() && c.start + c.size <= |content|
    requires c.buffer[..c.size] == content[c.start..c.start + c.size]
    requires c.start <= pos && pos + k <= c.start + c.size
    ensures c.buffer[pos - c.start..pos - c.start + k] == content[pos..pos + k]
  {
    var o := pos - c.start;
    SliceOfSlice(content, c.start, c.start + c.size, o, o + k);
    SliceOfSlice(c.buffer, 0, c.size, o, o + k);
    assert c.start + o == pos;
  }

  /** Writing into the last block leaves it pending; a finished padding behind it will be overwritten. */
  lemma WriteTail(c: Cache, content: seq<byte>, data: seq<byte>, pos: nat)
    requires Means(c, content) && c.start != NO_BLOCK && data != []
    requires c.start <= pos <= |content| && pos < c.start + c.BlockSize()
    requires c.simple.contentSize <= c.start + c.BlockSize()
    requires Fits(c.BlockSize(), pos + |data|)
    ensures var k := c.Room(pos, |data|);
            Writer(c.WriteToBlock(data, pos), Splice(content, pos, data[..k]))
  {
    hide Provider.Cipher, TailPending, Committed, Unloaded, Frontier;
    if Emptied(c, content) {
      WriteFirst(c, content, data);
    } else {
      hide Emptied;
      WriteLast(c, content, data, pos);
    }
  }

  lemma WriteFirst(c: Cache, content: seq<byte>, data: seq<byte>)
    requires c.Shape() && Emptied(c, content) && data != [] && Fits(c.BlockSize(), |data|)
    ensures Writer(c.WriteToBlock(data, 0), Splice(content, 0, data[..c.Room(0, |data|)]))
  {
    hide Provider.Cipher;
    NothingCiphers(c.simple.provider);
    TailBytes(c, content, data[..c.Room(0, |data|)], 0);
    assert TailPending(c.WriteToBlock(data, 0), Splice(content, 0, data[..c.Room(0, |data|)]));
  }

  lemma WriteLast(c: Cache, content: seq<byte>, data: seq<byte>, pos: nat)
    requires Means(c, content) && !Emptied(c, content) && c.start != NO_BLOCK && data != []
    requires c.start <= pos <= |content| && pos < c.start + c.BlockSize()
    requires c.simple.contentSize <= c.start + c.BlockSize()
    requires Fits(c.BlockSize(), pos + |data|)
    ensures var k := c.Room(pos, |data|);
            Writer(c.WriteToBlock(data, pos), Splice(content, pos, data[..k]))
  {
    hide Provider.Cipher, Cache.WriteToBlock;
    LastFront(c, content);
    var k := c.Room(pos, |data|);
    TailBytes(c, content, data[..k], pos);
    WriteLastPending(c, content, data, pos);
  }

  /** What stands before the last block, and the block itself. */
  lemma LastFront(c: Cache, content: seq<byte>)
    requires Means(c, content) && !Emptied(c, content) && c.start != NO_BLOCK
    requires c.simple.contentSize <= c.start + c.BlockSize() && c.start <= |content| < c.start + c.BlockSize() + 1
    ensures LastHeld(c, content)
  {
    hide Provider.Cipher;
    if Writer(c, content) && Committed(c, content) {
      SplitTail(c.simple.provider, content, c.start, c.start / c.BlockSize());
    } else if !Writer(c, content) {
      assert content[..c.start] == content;
    }
  }

  /** The last block, cached, behind the ciphertext of the blocks before it. */
  ghost predicate LastHeld(c: Cache, content: seq<byte>) {
    var p := c.simple.provider;
    && c.Shape() && OnBlock(c.BlockSize(), c.start)
    && c.start + c.size == |content| && content[c.start..] == c.buffer[..c.size]
    && c.start <= c.simple.contentSize <= |content|
    && var region := c.simple.Region();
    && c.start <= |region| <= p.CipherSize(c.simple.contentSize)
    && region[..c.start] == p.Cipher(content[..c.start], 0, false)
  }

  lemma WriteLastPending(c: Cache, content: seq<byte>, data: seq<byte>, pos: nat)
    requires LastHeld(c, content) && data != [] && c.start <= pos <= |content| && pos < c.start + c.BlockSize()
    requires c.simple.contentSize <= c.start + c.BlockSize() && Fits(c.BlockSize(), pos + |data|)
    requires Fits(c.BlockSize(), |content|)
    requires var k := c.Room(pos, |data|);
             && c.start <= pos + k
             && Splice(content, pos, data[..k])[c.start..]
                == Splice(c.buffer, pos - c.start, data[..k])[..Max(c.size, pos - c.start + k)]
    ensures Writer(c.WriteToBlock(data, pos), Splice(content, pos, data[..c.Room(pos, |data|)]))
  {
    hide Provider.Cipher, Provider.CipherSize;
    var k, d := c.Room(pos, |data|), c.WriteToBlock(data, pos);
    var content' := Splice(content, pos, data[..k]);
    assert content'[..c.start] == content[..c.start];
    assert TailPending(d, content');
  }

  lemma NothingCiphers(p: Provider)
    ensures p.Cipher([], 0, false) == []
  {
    CipherLength(p, [], 0, false);
  }

  lemma TailBytes(c: Cache, content: seq<byte>, data: seq<byte>, pos: nat)
    requires c.Shape() && c.start + c.size == |content| && content[c.start..] == c.buffer[..c.size]
    requires c.start <= pos <= |content| && pos + |data| <= c.start + c.BlockSize()
    ensures var size := Max(c.size, pos - c.start + |data|);
            Splice(content, pos, data)[c.start..] == Splice(c.buffer, pos - c.start, data)[..size]
  {
    var l := Splice(content, pos, data)[c.start..];
    var r := Splice(c.buffer, pos - c.start, data)[..Max(c.size, pos - c.start + |data|)];
    forall i | 0 <= i < |l| ensures l[i] == r[i] {
      SpliceAt(content, pos, data, c.start + i);
      SpliceAt(c.buffer, pos - c.start, data, i);
      if i < c.size {
        assert content[c.start..][i] == c.buffer[..c.size][i];
      }
    }
  }

  lemma AroundMiddle(c: Cache, content: seq<byte>)
    requires Writer(c, content) && c.start != NO_BLOCK && Committed(c, content)
    requires c.start + c.BlockSize() < |content|
    ensures var p, region, end := c.simple.provider, c.simple.Region(), c.start + c.BlockSize();
            && c.start <= end <= |region|
            && region[..c.start] == p.Cipher(content[..c.start], 0, false)
            && region[end..] == p.Cipher(content[end..], c.start / c.BlockSize() + 1, true)
  {
    hide Provider.Cipher;
    CipherSizeMonotone(c.simple.provider, 0, |content|);
    CipherSizeMonotone(c.simple.provider, |content|, |content|);
    if !c.pending {
      SplitAround(c.simple.provider, content, c.start, c.start / c.BlockSize());
    }
  }

  /** Writing into a block before the last keeps the ciphertext around it. */
  lemma WriteMiddle(c: Cache, content: seq<byte>, data: seq<byte>, pos: nat)
    requires Writer(c, content) && c.start != NO_BLOCK && data != []
    requires c.start <= pos < c.start + c.BlockSize() < c.simple.contentSize
    ensures var k := c.Room(pos, |data|);
            Writer(c.WriteToBlock(data, pos), Splice(content, pos, data[..k]))
  {
    hide Provider.Cipher, Provider.CipherSize, Provider.Legal;
    var bs, k := c.BlockSize(), c.Room(pos, |data|);
    var content' := Splice(content, pos, data[..k]);
    AroundMiddle(c, content);
    assert content'[..c.start] == content[..c.start];
    assert content'[c.start + bs..] == content[c.start + bs..];
    MiddleBytes(c, content, data[..k], pos);
    assert Committed(c.WriteToBlock(data, pos), content');
  }

  lemma MiddleBytes(c: Cache, content: seq<byte>, data: seq<byte>, pos: nat)
    requires c.Shape() && c.start + c.BlockSize() <= |content|
    requires c.buffer == content[c.start..c.start + c.BlockSize()]
    requires c.start <= pos && pos + |data| <= c.start + c.BlockSize()
    ensures Splice(content, pos, data)[c.start..c.start + c.BlockSize()] == Splice(c.buffer, pos - c.start, data)
  {
    var l := Splice(content, pos, data)[c.start..c.start + c.BlockSize()];
    var r := Splice(c.buffer, pos - c.start, data);
    forall i | 0 <= i < |l| ensures l[i] == r[i] {
      SpliceAt(content, pos, data, c.start + i);
      SpliceAt(c.buffer, pos - c.start, data, i);
      assert l[i] == Splice(content, pos, data)[c.start + i];
      assert c.buffer[i] == content[c.start + i];
    }
  }

  /** A write into the cached block is a write into the content, cut at the end of the block. */
  lemma WriteStep(c: Cache, content: seq<byte>, data: seq<byte>, pos: nat)
    requires Means(c, content) && c.start != NO_BLOCK && data != []
    requires c.start <= pos <= |content| && pos < c.start + c.BlockSize()
    requires Fits(c.BlockSize(), pos + |data|)
    ensures var k := c.Room(pos, |data|);
            && k == Min(|data|, c.start + c.BlockSize() - pos)
            && Writer(c.WriteToBlock(data, pos), Splice(content, pos, data[..k]))
            && SameContainer(c, c.WriteToBlock(data, pos))
            && c.WriteToBlock(data, pos).start == c.start
  {
    hide Provider.Cipher;
    if c.start + c.BlockSize() < c.simple.contentSize {
      WriteMiddle(c, content, data, pos);
    } else {
      WriteTail(c, content, data, pos);
    }
  }

  // ---------------------------------------------------------------- Flush

  predicate CanFlush(p: Provider, size: nat) {
    p.Legal(size) && !(p.mode.Cbc512NoPadding? && size == 0)
  }

  ghost predicate Flushed(c: Cache, r: Result<Cache>, content: seq<byte>) {
    && r.Ok?
    && Writer(r.value, content)
    && !r.value.pending && r.value.finalWritten && r.value.start == c.start
    && r.value.simple.contentSize == |content|
    && r.value.simple.Region() == Whole(c.simple.provider, content)
    && SameContainer(c, r.value)
  }

  lemma FlushUnloaded(c: Cache, content: seq<byte>)
    requires Writer(c, content) && Unloaded(c, content)
    ensures if CanFlush(c.simple.provider, |content|) then Flushed(c, c.Flush(), content) else c.Flush().Err?
  {
    var p := c.simple.provider;
    NumbersExact(c, content, 0);
    CipherLength(p, [], 0, true);
    WriteAt(c.simple, c.buffer[..0], 0, 0, true);
  }

  lemma FlushTail(c: Cache, content: seq<byte>)
    requires Writer(c, content) && c.start != NO_BLOCK && TailPending(c, content)
    ensures if CanFlush(c.simple.provider, |content|) then Flushed(c, c.Flush(), content) else c.Flush().Err?
  {
    hide Provider.Cipher;
    var p, j := c.simple.provider, c.start / c.BlockSize();
    var tail := c.buffer[..c.size];
    NumbersExact(c, content, |content|);
    BlocksLegal(p, j, c.size);
    CipherSizeMonotone(p, c.simple.contentSize, |content|);
    WriteAt(c.simple, tail, c.start, j, true);
    if p.Legal(|content|) {
      SplitTail(p, content, c.start, j);
      CipherLength(p, tail, j, true);
    }
  }

  lemma FlushMiddle(c: Cache, content: seq<byte>)
    requires Writer(c, content) && c.start != NO_BLOCK && Committed(c, content)
    requires c.start + c.BlockSize() < |content|
    ensures Flushed(c, c.Flush(), content)
  {
    hide Provider.Cipher, Simple.WriteInternal;
    NumbersExact(c, content, |content|);
    MiddleWritten(c, content);
  }

  lemma FlushLast(c: Cache, content: seq<byte>)
    requires Writer(c, content) && c.start != NO_BLOCK && Committed(c, content)
    requires c.start + c.BlockSize() >= |content|
    ensures if CanFlush(c.simple.provider, |content|) then Flushed(c, c.Flush(), content) else c.Flush().Err?
  {
    hide Provider.Cipher, Simple.WriteInternal;
    var p, j := c.simple.provider, c.start / c.BlockSize();
    var tail := c.buffer[..c.size];
    NumbersExact(c, content, |content|);
    BlocksLegal(p, j, c.size);
    SplitTail(p, content, c.start, j);
    CipherLength(p, tail, j, true);
    WriteAt(c.simple, tail, c.start, j, true);
    assert tail == content[c.start..];
  }

  lemma FlushEmptied(c: Cache, content: seq<byte>)
    requires Writer(c, content) && Emptied(c, content)
    ensures if CanFlush(c.simple.provider, |content|) then Flushed(c, c.Flush(), content) else c.Flush().Err?
  {
    hide Provider.Cipher;
    var p := c.simple.provider;
    NumbersExact(c, content, 0);
    CipherLength(p, [], 0, true);
    WriteAt(c.simple, c.buffer[..0], 0, 0, true);
  }

  /** Flush leaves exactly the finished ciphertext; it throws on an illegal length and, in 512-byte mode, on nothing. */
  lemma FlushExact(c: Cache, content: seq<byte>)
    requires Writer(c, content)
    ensures if CanFlush(c.simple.provider, |content|) then Flushed(c, c.Flush(), content) else c.Flush().Err?
  {
    hide Provider.Cipher, Simple.WriteInternal;
    if c.start == NO_BLOCK {
      FlushUnloaded(c, content);
    } else if Emptied(c, content) {
      FlushEmptied(c, content);
    } else if TailPending(c, content) {
      FlushTail(c, content);
    } else if c.start + c.BlockSize() < |content| {
      FlushMiddle(c, content);
      BlocksLegal(c.simple.provider, 0, |content|);
    } else {
      FlushLast(c, content);
    }
  }

  // ---------------------------------------------------------------- shrinking

  /** When the stream can be cut to `newSize`: the byte before is reachable and already counted as content. */
  predicate CanShrink(c: Cache, size: nat, newSize: nat) {
    && 0 < newSize < size
    && CanMove(c, size, newSize - 1)
    && (c.start == (newSize - 1) / c.BlockSize() * c.BlockSize() ==> newSize <= c.simple.contentSize)
  }

  lemma RewriteIsFlags(m: Cache, pos: nat)
    requires m.Shape() && m.start <= pos < m.start + m.size
    ensures m.ReadFromBlock(pos, 1) != []
    ensures m.(finalWritten := false).WriteToBlock(m.ReadFromBlock(pos, 1), pos)
         == m.(finalWritten := false, pending := true)
  {
    var o := pos - m.start;
    var b := [m.buffer[o]];
    assert m.ReadFromBlock(pos, 1) == b && b[..1] == b;
    assert Splice(m.buffer, o, b) == m.buffer;
  }

  /** Rewriting the byte before the new size changes nothing but the flags. */
  lemma RewriteKeeps(c: Cache, content: seq<byte>, newSize: nat)
    requires Writer(c, content) && CanShrink(c, |content|, newSize)
    ensures var r, m := c.RewriteFinalBlock(newSize), c.UpdateBlock(newSize - 1);
            && r.Ok? && m.Ok? && Moved(c, m, content, newSize - 1)
            && r.value == m.value.(finalWritten := false, pending := true)
            && newSize <= m.value.simple.contentSize
            && SameContainer(c, r.value)
  {
    hide Provider.Cipher, Provider.Decipher, Cache.UpdateBlock, Cache.ReadFromBlock, Cache.WriteToBlock, TailPending,
      Committed, Unloaded, Frontier;
    UpdateExact(c, content, newSize - 1);
    BlockOf(c.BlockSize(), newSize - 1);
    RewriteIsFlags(c.UpdateBlock(newSize - 1).value, newSize - 1);
  }

  /** The cached bytes are content, and the blocks before them are enciphered. */
  ghost predicate Backed(m: Cache, content: seq<byte>) {
    && m.Shape() && m.start != NO_BLOCK && OnBlock(m.BlockSize(), m.start) && Fits(m.BlockSize(), |content|)
    && m.start + m.size <= |content| && m.buffer[..m.size] == content[m.start..m.start + m.size]
    && m.start <= |m.simple.Region()| <= m.simple.provider.CipherSize(m.simple.contentSize)
    && m.simple.Region()[..m.start] == m.simple.provider.Cipher(content[..m.start], 0, false)
  }

  /** As in a writer. */
  lemma WriterBacked(m: Cache, content: seq<byte>)
    requires Writer(m, content) && m.start != NO_BLOCK && content != []
    ensures Backed(m, content)
  {
    hide Provider.Cipher, Provider.CipherSize, Provider.Legal;
    PrefixCiphered(m, content);
  }

  /** Cutting content and cache together leaves the shorter content, its last block pending. */
  lemma CutKeeps(m: Cache, content: seq<byte>, newSize: nat)
    requires Backed(m, content)
    requires 0 < newSize <= m.simple.contentSize && newSize <= |content|
    requires m.start < newSize <= m.start + m.size
    ensures var c := m.(finalWritten := false, pending := true, simple := m.simple.Shrink(newSize));
            && c.SizeInternal(newSize).Ok?
            && Writer(c.SizeInternal(newSize).value, content[..newSize])
            && c.SizeInternal(newSize).value.start == m.start
            && c.SizeInternal(newSize).value.simple == c.simple
            && SameContainer(m, c.SizeInternal(newSize).value)
  {
    hide Provider.Cipher, Provider.Legal, Provider.CipherSize;
    var p, s := m.simple.provider, m.simple.Shrink(newSize);
    var region, region' := m.simple.Region(), s.Region();
    SmallNumber(m, m.start);
    CipherSizeMonotone(p, newSize, newSize);
    assert region'[..m.start] == region[..m.start];
    assert content[..newSize][..m.start] == content[..m.start];
    CachedSlice(m, content, m.start, newSize - m.start);
    assert content[..newSize][m.start..] == content[m.start..newSize];
  }

  /** Cutting to nothing goes through exactly when the first block is the cached one; the stream is then empty. */
  lemma CutToNothing(c: Cache, content: seq<byte>)
    requires Writer(c, content) && content != []
    ensures c.RewriteFinalBlock(0) == Ok(c)
    ensures var r := c.CutTo(0);
            && (r.Ok? <==> c.start == 0)
            && (r.Ok? ==> Emptied(r.value, []) && Writer(r.value, []) && SameContainer(c, r.value))
  {
    hide Provider.Cipher, Provider.Legal;
    var d := c.(simple := c.simple.Shrink(0));
    SmallNumber(c, c.start);
    BlockOf(c.BlockSize(), c.start);
    assert d.CalculateBlockNumber(c.start) == c.start / c.BlockSize();
  }

  /** Whatever is pending, the blocks before the cached one are enciphered. */
  lemma PrefixCiphered(c: Cache, content: seq<byte>)
    requires Writer(c, content) && c.start != NO_BLOCK
    ensures var region := c.simple.Region();
            c.start <= |region| && region[..c.start] == c.simple.provider.Cipher(content[..c.start], 0, false)
  {
    hide Provider.Cipher;
    if Committed(c, content) && !c.pending {
      SplitTail(c.simple.provider, content, c.start, c.start / c.BlockSize());
    } else if Emptied(c, content) {
      NothingCiphers(c.simple.provider);
    }
  }

  // ---------------------------------------------------------------- a cache stands for one content only

  lemma CipherInjective(p: Provider, a: seq<byte>, b: seq<byte>, n: nat, isFinal: bool)
    requires p.Encrypt(a, n, isFinal).Ok? && p.Encrypt(b, n, isFinal).Ok?
    requires p.Cipher(a, n, isFinal) == p.Cipher(b, n, isFinal)
    ensures a == b
  {
    hide Provider.Cipher, Provider.Decipher, Provider.Decrypt, Provider.Legal, Provider.Aligned;
    RoundTrip(p, a, n, isFinal);
    RoundTrip(p, b, n, isFinal);
  }

  lemma PrefixInjective(c: Cache, a: seq<byte>, b: seq<byte>, s: nat)
    requires c.Shape() && OnBlock(c.BlockSize(), s) && s <= |a| && s <= |b|
    requires c.simple.provider.Cipher(a[..s], 0, false) == c.simple.provider.Cipher(b[..s], 0, false)
    ensures a[..s] == b[..s]
  {
    hide Provider.Cipher, Provider.Legal;
    BlocksLegal(c.simple.provider, s / c.BlockSize(), 0);
    CipherInjective(c.simple.provider, a[..s], b[..s], 0, false);
  }

  lemma TailMeaning(c: Cache, a: seq<byte>, b: seq<byte>)
    requires Writer(c, a) && Writer(c, b) && c.start != NO_BLOCK && |a| == |b| && TailPending(c, a)
    ensures a == b
  {
    hide Provider.Cipher, Provider.Legal, Provider.CipherSize;
    PrefixInjective(c, a, b, c.start);
    assert a == a[..c.start] + a[c.start..] && b == b[..c.start] + b[c.start..];
  }

  lemma MiddleMeaning(c: Cache, a: seq<byte>, b: seq<byte>)
    requires c.Shape() && OnBlock(c.BlockSize(), c.start) && |a| == |b|
    requires Committed(c, a) && Committed(c, b) && c.pending
    ensures a == b
  {
    hide Provider.Cipher, Provider.CipherSize;
    var e := c.start + c.BlockSize();
    PrefixInjective(c, a, b, c.start);
    BlocksLegal(c.simple.provider, c.start / c.BlockSize() + 1, |a| - e);
    assert (c.start / c.BlockSize() + 1) * c.BlockSize() == e;
    CipherInjective(c.simple.provider, a[e..], b[e..], c.start / c.BlockSize() + 1, true);
    assert a == a[..c.start] + a[c.start..e] + a[e..] && b == b[..c.start] + b[c.start..e] + b[e..];
  }

  /** No cache stands for two contents. */
  lemma OneMeaning(c: Cache, a: seq<byte>, b: seq<byte>)
    requires Writer(c, a) && Writer(c, b)
    ensures a == b
  {
    hide Provider.Cipher, Provider.CipherSize;
    NumbersExact(c, a, 0);
    NumbersExact(c, b, 0);
    if a != [] {
      if TailPending(c, a) {
        TailMeaning(c, a, b);
      } else if c.pending {
        MiddleMeaning(c, a, b);
      } else {
        CipherInjective(c.simple.provider, a, b, 0, true);
      }
    }
  }
}
