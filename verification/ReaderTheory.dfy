/**
 What a reader's cache means: a stream opened on finished ciphertext and only read. Its content size counts
 ciphertext bytes, padding included.
 */
module ReaderTheory {
  import opened Bytes
  import opened BlockCipher
  import opened Providers
  import opened CacheModel
  import opened CacheTheory

  /** The cache of a reader whose stream denotes `plain`. */
  ghost predicate Reader(c: Cache, plain: seq<byte>) {
    && c.Shape() && !c.pending && !c.finalWritten
    && c.simple.provider.Legal(|plain|)
    && c.simple.Region() == Whole(c.simple.provider, plain)
    && c.simple.contentSize == |c.simple.Region()|
    && Fits(c.BlockSize(), c.simple.contentSize)
    && if c.start == NO_BLOCK then c.size == 0
       else
         && OnBlock(c.BlockSize(), c.start)
         && c.start <= |plain|
         && c.size == Min(c.BlockSize(), |plain| - c.start)
         && c.buffer[..c.size] == plain[c.start..c.start + c.size]
  }

  /** A block below the ciphertext's end starts within the plain bytes; one that is not the last lies within. */
  lemma BlockWithin(p: Provider, j: nat, n: nat)
    requires p.Legal(n) && j * p.CacheBlock() < p.CipherSize(n)
    ensures j * p.CacheBlock() <= n
    ensures j * p.CacheBlock() + p.CacheBlock() < p.CipherSize(n) ==> j * p.CacheBlock() + p.CacheBlock() <= n
    ensures j * p.CacheBlock() + p.CacheBlock() >= p.CipherSize(n) ==> n - j * p.CacheBlock() <= p.CacheBlock()
  {
    if p.Padded() {
      var s := j * p.CacheBlock();
      assert s == 16 * (256 * j);
      var q := (n + PadLength(n)) / 16;
      assert n + PadLength(n) == 16 * q;
      assert 256 * j < q;
    }
  }

  lemma LoadReader(c: Cache, plain: seq<byte>, j: nat)
    requires Reader(c, plain) && j * c.BlockSize() < c.simple.contentSize
    ensures c.Load(j).Ok?
    ensures var d := c.Load(j).value;
            Reader(d, plain) && d.start == j * c.BlockSize() && d.simple == c.simple
  {
    hide Provider.Cipher, Provider.Decipher, Simple.ReadInternal, Provider.Encrypt, Provider.Decrypt,
      Provider.CipherSize;
    var p, bs, s, region := c.simple.provider, c.BlockSize(), j * c.BlockSize(), c.simple.Region();
    CipherLength(p, plain, 0, true) by {
      assert p.Encrypt(plain, 0, true).Ok? by { LegalEncrypts(p, plain); }
    }
    BlockWithin(p, j, |plain|);
    BlockUnique(bs, j, s);
    if s + bs < |region| {
      SplitAround(p, plain, s, j);
      assert region[s..s + bs] == p.Cipher(plain[s..s + bs], j, false);
      EncryptIsCipher(p, plain[s..s + bs], j, false);
      ReadAt(c.simple, c.buffer, s, j, false);
      RoundTrip(p, plain[s..s + bs], j, false);
    } else {
      SplitTail(p, plain, s, j);
      assert region[s..] == p.Cipher(plain[s..], j, true);
      assert region[s..|region|] == region[s..];
      EncryptIsCipher(p, plain[s..], j, true);
      ReadAt(c.simple, c.buffer, s, j, true);
      RoundTrip(p, plain[s..], j, true);
      assert plain[s..s + |plain[s..]|] == plain[s..];
    }
  }

  lemma LegalEncrypts(p: Provider, data: seq<byte>)
    requires p.Legal(|data|)
    ensures p.Encrypt(data, 0, true).Ok?
  {
  }

  lemma EncryptIsCipher(p: Provider, data: seq<byte>, n: nat, isFinal: bool)
    requires p.Encrypt(data, n, isFinal).Ok?
    ensures p.Encrypt(data, n, isFinal).value == p.Cipher(data, n, isFinal)
  {
  }

  /** A reader can move to every block below the end of its ciphertext. */
  lemma UpdateReader(c: Cache, plain: seq<byte>, pos: nat)
    requires Reader(c, plain) && pos < c.simple.contentSize
    ensures c.GetSizeInternal() == c.simple.contentSize
    ensures c.UpdateBlock(pos).Ok?
    ensures var d := c.UpdateBlock(pos).value;
            Reader(d, plain) && d.start == pos / c.BlockSize() * c.BlockSize() && d.simple == c.simple
  {
    hide Provider.Cipher, Provider.Decipher, Simple.ReadInternal, Cache.Load;
    BlockOf(c.BlockSize(), pos);
    SmallNumber(c, pos);
    if c.start == NO_BLOCK || c.start / c.BlockSize() != pos / c.BlockSize() {
      LoadReader(c, plain, pos / c.BlockSize());
    }
    if c.start != NO_BLOCK {
      ReaderSize(c, plain);
      SmallNumber(c, c.start);
    }
  }

  /** The ciphertext is no shorter than the plain bytes. */
  lemma ReaderSize(c: Cache, plain: seq<byte>)
    requires Reader(c, plain)
    ensures |plain| <= c.simple.contentSize == c.simple.provider.CipherSize(|plain|)
    ensures c.start != NO_BLOCK ==> Fits(c.BlockSize(), c.start)
  {
    LegalEncrypts(c.simple.provider, plain);
    CipherLength(c.simple.provider, plain, 0, true);
    CipherSizeMonotone(c.simple.provider, |plain|, |plain|);
  }

  /** A read from the cached block is a read from the plain bytes, cut at the end of the block. */
  lemma ReadStepReader(c: Cache, plain: seq<byte>, pos: nat, n: nat)
    requires Reader(c, plain) && c.start != NO_BLOCK && c.start <= pos < c.start + c.BlockSize()
    ensures c.ReadFromBlock(pos, n) == ArrayRead(plain, pos, Min(n, c.start + c.BlockSize() - pos))
  {
    hide Reader;
    ReaderBytes(c, plain);
    if pos < c.start + c.size {
      CachedSlice(c, plain, pos, Min(n, c.start + c.size - pos));
    }
  }

  lemma ReaderBytes(c: Cache, plain: seq<byte>)
    requires Reader(c, plain) && c.start != NO_BLOCK
    ensures c.Shape() && c.start <= |plain| && c.size == Min(c.BlockSize(), |plain| - c.start)
    ensures c.buffer[..c.size] == plain[c.start..c.start + c.size]
  {
    hide Provider.Cipher;
  }
}
