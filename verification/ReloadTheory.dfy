/**
 What a padded writer gets when its cache comes back to the last block. The content size then counts plain bytes, so
 the padding stays unread, and the end of the plain bytes themselves is taken for padding.
 */
module ReloadTheory {
  import opened Bytes
  import opened BlockCipher
  import opened Providers
  import opened CacheModel
  import opened CacheTheory

  // ---------------------------------------------------------------- the last block, cut short

  /** Chained encryption of a front of whole cipher blocks does not depend on what follows. */
  lemma {:induction false} CbcPrefix(key: Key, a: seq<byte>, b: seq<byte>, iv: Block)
    requires |a| % AES_BLOCK == 0
    ensures var r := CbcEncrypt(key, a + b, iv);
            |a| <= |r| && r[..|a|] == CbcEncrypt(key, a, iv)
    decreases |a|
  {
    if a == [] {
      assert a + b == b;
    } else {
      var whole := a + b;
      assert whole[..AES_BLOCK] == a[..AES_BLOCK] && whole[AES_BLOCK..] == a[AES_BLOCK..] + b;
      var c: Block := key.encrypt(Xor(a[..AES_BLOCK], iv));
      CbcPrefix(key, a[AES_BLOCK..], b, c);
    }
  }

  /** The ciphertext of a last block, up to the length of its plain bytes, is the block enciphered without padding. */
  lemma TailPrefix(key: Key, tail: seq<byte>, n: nat)
    requires 0 < |tail| <= CBC4K_BLOCK && |tail| % AES_BLOCK == 0
    ensures var r := Cbc4kEncrypt(Encrypt4k(key), tail, n, true);
            |tail| <= |r| && r[..|tail|] == CbcEncrypt(key, tail, Iv4k(key, n))
  {
    hide CbcEncrypt, Iv4k, Pad, PadLength;
    if |tail| == CBC4K_BLOCK {
      assert tail[..CBC4K_BLOCK] == tail;
    } else {
      PadAppends(tail);
      CbcPrefix(key, tail, Pad(tail)[|tail|..], Iv4k(key, n));
    }
  }

  lemma PadAppends(data: seq<byte>)
    ensures |data| <= |Pad(data)| && data + Pad(data)[|data|..] == Pad(data)
  {
  }

  /** Deciphering a last block that is cut at its plain length: the plain bytes, less what looks like padding. */
  lemma TailDeciphers(p: Provider, tail: seq<byte>, n: nat)
    requires p.Padded() && 0 < |tail| <= CBC4K_BLOCK
    ensures |tail| <= |p.Cipher(tail, n, true)|
    ensures var r := p.Decrypt(p.Cipher(tail, n, true)[..|tail|], n, true);
            if |tail| % AES_BLOCK != 0 then r.Err?
            else |tail| >= AES_BLOCK && r == Unpad(tail)
  {
    hide Cbc4kEncrypt, CbcEncrypt, CbcDecrypt, Iv4k, Unpad, Pad;
    CipherLength(p, tail, n, true);
    var cipher := p.Cipher(tail, n, true)[..|tail|];
    if |tail| % AES_BLOCK == 0 {
      TailPrefix(p.key, tail, n);
      CbcRoundTrip(p.key, tail, Iv4k(p.key, n));
      FinalOnly(p.key, tail, n);
    }
  }

  lemma FinalOnly(key: Key, tail: seq<byte>, n: nat)
    requires AES_BLOCK <= |tail| <= CBC4K_BLOCK && |tail| % AES_BLOCK == 0
    requires CbcDecrypt(key, CbcEncrypt(key, tail, Iv4k(key, n)), Iv4k(key, n)) == tail
    ensures Cbc4kDecrypt(Decrypt4k(key), CbcEncrypt(key, tail, Iv4k(key, n)), n, true) == Unpad(tail)
  {
    hide CbcEncrypt, CbcDecrypt, Iv4k, Unpad;
  }

  // ---------------------------------------------------------------- the reload

  /** Where the last block of a content starts. */
  function LastStart(bs: nat, size: nat): (r: nat)
    requires bs == 512 || bs == 4096
    ensures size > 0 ==> InLastBlock(bs, size, r) && OnBlock(bs, r) && r < size <= r + bs
  {
    if size == 0 then 0
    else
      BlockOf(bs, size - 1);
      BlockUnique(bs, (size - 1) / bs, (size - 1) / bs * bs);
      (size - 1) / bs * bs
  }

  function TailOf(bs: nat, content: seq<byte>): (r: seq<byte>)
    requires bs == 512 || bs == 4096
    ensures LastStart(bs, |content|) + |r| == |content|
    ensures content != [] ==> 0 < |r| <= bs
  {
    content[LastStart(bs, |content|)..]
  }

  /** Whether the last block can be reloaded at all: whole cipher blocks that end like padding. */
  predicate Reloads(bs: nat, content: seq<byte>)
    requires bs == 512 || bs == 4096
  {
    var tail := TailOf(bs, content);
    |tail| >= AES_BLOCK && |tail| % AES_BLOCK == 0 && Unpad(tail).Ok?
  }

  /** What comes back. */
  function Reloaded(bs: nat, content: seq<byte>): (r: seq<byte>)
    requires (bs == 512 || bs == 4096) && Reloads(bs, content)
    ensures |r| < |TailOf(bs, content)| && r == TailOf(bs, content)[..|r|]
  {
    Unpad(TailOf(bs, content)).value
  }

  /** The length condition, on the whole content. */
  lemma ReloadLength(bs: nat, content: seq<byte>)
    requires (bs == 512 || bs == 4096) && content != []
    ensures |TailOf(bs, content)| % AES_BLOCK == |content| % AES_BLOCK
  {
    var k := (|content| - 1) / bs;
    if bs == 512 {
      AddMultiple16(32 * k, |TailOf(bs, content)|);
    } else {
      AddMultiple16(256 * k, |TailOf(bs, content)|);
    }
  }

  /** What is deciphered on a reload: the last block's ciphertext, cut at its plain length. */
  function TailCipher(p: Provider, content: seq<byte>): seq<byte> {
    var tail := TailOf(p.CacheBlock(), content);
    if p.Padded() && tail != [] then
      var j := LastStart(p.CacheBlock(), |content|) / p.CacheBlock();
      TailDeciphers(p, tail, j);
      p.Cipher(tail, j, true)[..|tail|]
    else []
  }

  /** What the platform leaves in the buffer behind the bytes that come back. */
  function Rest(c: Cache, content: seq<byte>): (r: seq<byte>)
    requires c.Shape() && Reloads(c.BlockSize(), content)
    ensures |r| == c.BlockSize() - |Reloaded(c.BlockSize(), content)|
  {
    c.simple.provider.Behind(c.buffer[|Reloaded(c.BlockSize(), content)|..],
                             TailCipher(c.simple.provider, content), true)
  }

  /** The cache after the reload: only so many bytes came back, and behind them stands `rest`. */
  ghost predicate Lossy(c: Cache, rest: seq<byte>, content: seq<byte>) {
    && c.Shape() && Clean(c, content) && Reloads(c.BlockSize(), content)
    && c.start == LastStart(c.BlockSize(), |content|)
    && c.size == |Reloaded(c.BlockSize(), content)|
    && c.buffer == Reloaded(c.BlockSize(), content) + rest
  }

  /** Loading the last block of padded content succeeds exactly when it ends like padding, and then loses that end. */
  lemma LoadPaddedTail(c: Cache, content: seq<byte>, j: nat)
    requires c.Shape() && Clean(c, content) && Fits(c.BlockSize(), |content|) && c.simple.provider.Padded()
    requires j * c.BlockSize() == LastStart(c.BlockSize(), |content|)
    ensures c.Load(j).Ok? <==> Reloads(c.BlockSize(), content)
    ensures c.Load(j).Ok? ==> Lossy(c.Load(j).value, Rest(c, content), content) && SameContainer(c, c.Load(j).value)
  {
    hide Provider.Cipher, Provider.Decipher, Provider.Decrypt, Unpad, LastStart, Reloads;
    var p, bs, s := c.simple.provider, c.BlockSize(), j * c.BlockSize();
    var tail, region := TailOf(bs, content), c.simple.Region();
    CipherLength(p, content, 0, true);
    SplitTail(p, content, s, j);
    TailDeciphers(p, tail, j);
    assert region[s..|content|] == p.Cipher(tail, j, true)[..|tail|];
    ReadExactly(c.simple, c.buffer, s, j, region[s..|content|]);
    LoadIs(c, content, j, region[s..|content|]);
  }

  /** A read of some bytes at the end of the content size. */
  lemma ReadExactly(s: Simple, buffer: seq<byte>, offset: nat, n: nat, cipher: seq<byte>)
    requires s.Shape() && offset < s.contentSize <= |s.Region()| && s.contentSize < TWO_64
    requires s.contentSize - offset <= |buffer| && cipher == s.Region()[offset..s.contentSize]
    ensures s.ReadInternal(buffer, offset, n, true).Ok? <==> s.provider.Decrypt(cipher, n, true).Ok?
    ensures var r := s.ReadInternal(buffer, offset, n, true);
            r.Ok? ==> var plain := s.provider.Decrypt(cipher, n, true).value;
                      && |plain| <= |buffer|
                      && r.value == (plain + s.provider.Behind(buffer[|plain|..], cipher, true), |plain|)
  {
    hide Provider.Decipher, Provider.Decrypt;
    assert cipher == s.backing[s.contentStart + offset..s.contentStart + s.contentSize];
    if s.provider.Decrypt(cipher, n, true).Ok? {
      DecryptLength(s.provider, cipher, n, true);
    }
  }

  lemma LoadIs(c: Cache, content: seq<byte>, j: nat, cipher: seq<byte>)
    requires c.Shape() && Clean(c, content) && c.simple.provider.Padded()
    requires cipher == TailCipher(c.simple.provider, content)
    requires j * c.BlockSize() == LastStart(c.BlockSize(), |content|)
    requires var r := c.simple.ReadInternal(c.buffer, j * c.BlockSize(), j, true);
             var tail := TailOf(c.BlockSize(), content);
             && (r.Ok? <==> |tail| % AES_BLOCK == 0 && Unpad(tail).Ok?)
             && (r.Ok? ==> |Unpad(tail).value| <= |c.buffer|
                           && r.value == (Unpad(tail).value
                                          + c.simple.provider.Behind(c.buffer[|Unpad(tail).value|..], cipher, true),
                                          |Unpad(tail).value|))
    ensures c.Load(j).Ok? <==> Reloads(c.BlockSize(), content)
    ensures c.Load(j).Ok? ==> Lossy(c.Load(j).value, Rest(c, content), content) && SameContainer(c, c.Load(j).value)
  {
    hide Provider.Cipher, Unpad, Simple.ReadInternal;
  }

  // ---------------------------------------------------------------- moving where CanMove fails

  /** Only one block holds the last byte. */
  lemma LastIsUnique(bs: nat, size: nat, pos: nat)
    requires (bs == 512 || bs == 4096) && InLastBlock(bs, size, pos)
    ensures pos / bs * bs == LastStart(bs, size)
  {
    BlockOf(bs, pos);
    BlockUnique(bs, pos / bs, size - 1);
  }

  /** A pending tail cannot be left backwards at an illegal length. */
  lemma TailStays(c: Cache, content: seq<byte>, pos: nat)
    requires Writer(c, content) && c.start != NO_BLOCK && TailPending(c, content) && pos <= |content|
    requires !CanMove(c, |content|, pos)
    ensures !c.simple.provider.Padded() && c.UpdateBlock(pos).Err?
  {
    hide Provider.Cipher, Provider.Decipher, Simple.ReadInternal, Simple.WriteInternal;
    var bs := c.BlockSize();
    NumbersExact(c, content, pos);
    BlockOf(bs, pos);
    BlockOf(bs, c.start);
    if pos < c.start {
      EvictTailBackward(c, content, pos);
      if c.simple.provider.Padded() {
        LastIsUnique(bs, |content|, pos);
        BlockUnique(bs, c.start / bs, |content| - 1);
      }
    } else {
      TailMoveIsForward(bs, c.start, |content|, pos);
      assert false;
    }
  }

  lemma CommittedReloads(c: Cache, content: seq<byte>, pos: nat)
    requires Writer(c, content) && c.start != NO_BLOCK && Committed(c, content) && pos <= |content|
    requires content != [] && !CanMove(c, |content|, pos)
    ensures c.simple.provider.Padded() && pos / c.BlockSize() * c.BlockSize() == LastStart(c.BlockSize(), |content|)
    ensures var r := c.UpdateBlock(pos);
            && (r.Ok? <==> Reloads(c.BlockSize(), content))
            && (r.Ok? ==> Lossy(r.value, Rest(c, content), content) && SameContainer(c, r.value))
  {
    hide Provider.Cipher, Provider.Decipher, Cache.Evict, Cache.Load, LastStart, Reloads, Lossy;
    var bs := c.BlockSize();
    NumbersExact(c, content, pos);
    LastIsUnique(bs, |content|, pos);
    if c.pending {
      EvictMiddle(c, content, pos);
      EvictKeepsBuffer(c, pos);
      LoadPaddedTail(c.Evict(pos).value, content, pos / bs);
      assert c.UpdateBlock(pos) == c.Evict(pos).value.Load(pos / bs);
      if c.UpdateBlock(pos).Ok? {
        LossyShape(c.UpdateBlock(pos).value, Rest(c, content), content);
        SameContainerTransitive(c, c.Evict(pos).value, c.UpdateBlock(pos).value);
      }
    } else {
      LoadPaddedTail(c, content, pos / bs);
    }
  }

  lemma LossyShape(c: Cache, rest: seq<byte>, content: seq<byte>)
    requires Lossy(c, rest, content)
    ensures c.Shape()
  {
  }

  lemma EvictKeepsBuffer(c: Cache, pos: nat)
    requires c.Shape() && c.Evict(pos).Ok?
    ensures c.Evict(pos).value.buffer == c.buffer && c.Evict(pos).value.simple.Shape()
  {
    hide Provider.Cipher, Simple.WriteInternal;
  }

  /**
   What UpdateBlock does where CanMove fails. Unpadded it throws. Padded it comes back to the last block: that throws
   unless the content ends like padding, and then those last bytes are missing from the cache, but not from the stream.
   */
  lemma MoveExact(c: Cache, content: seq<byte>, pos: nat)
    requires Writer(c, content) && pos <= |content| && !CanMove(c, |content|, pos)
    ensures content != []
    ensures !c.simple.provider.Padded() ==> c.UpdateBlock(pos).Err?
    ensures c.simple.provider.Padded() ==>
              var r := c.UpdateBlock(pos);
              && pos / c.BlockSize() * c.BlockSize() == LastStart(c.BlockSize(), |content|)
              && (r.Ok? <==> Reloads(c.BlockSize(), content))
              && (r.Ok? ==> Lossy(r.value, Rest(c, content), content) && SameContainer(c, r.value))
  {
    hide Provider.Cipher, Cache.UpdateBlock, Lossy, Reloads, LastStart;
    if content == [] {
      NothingMoves(c, content);
      assert false;
    }
    if TailPending(c, content) {
      TailStays(c, content, pos);
    } else {
      CommittedReloads(c, content, pos);
    }
  }

  lemma NothingMoves(c: Cache, content: seq<byte>)
    requires Writer(c, content) && content == []
    ensures CanMove(c, 0, 0)
  {
    hide Provider.Cipher;
  }
}
