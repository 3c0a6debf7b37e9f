/**
 The protected stream's inner layers as functions on values: the block-enciphered content behind
 SimpleProtectedStream, and the one-block write-back cache in front of it. The classes in ProtectedStream
 are proved to compute these functions.
 */
module CacheModel {
  import opened Bytes
  import opened Wrappers
  import opened Providers

  /** "No block cached": the largest 64-bit number. */
  const NO_BLOCK: nat := TWO_64 - 1

  /** Enciphered content that starts at `contentStart` of a backing byte sequence. */
  datatype Simple = Simple(provider: Provider, contentStart: nat, backing: seq<byte>, contentSize: nat) {

    predicate Shape() {
      contentStart <= |backing|
    }

    /** The backing bytes from the content on. */
    function Region(): seq<byte>
      requires Shape()
    {
      backing[contentStart..]
    }

    /**
     Deciphers up to |buffer| bytes at `offset` into `buffer`; also yields how many plain bytes came out. What stands
     behind them is up to the platform.
     */
    function ReadInternal(buffer: seq<byte>, offset: nat, n: nat, isFinal: bool): (r: Result<(seq<byte>, nat)>)
      requires Shape()
      ensures r.Ok? ==> |r.value.0| == |buffer| && r.value.1 <= |buffer|
    {
      var left := (contentSize - offset) % TWO_64;
      var cipher := ArrayRead(backing, contentStart + offset, Min(|buffer|, left));
      if cipher == [] then Ok((buffer, 0))
      else
        var plain :- provider.Decrypt(cipher, n, isFinal);
        DecryptLength(provider, cipher, n, isFinal);
        Ok((plain + provider.Behind(buffer[|plain|..], cipher, isFinal), |plain|))
    }

    /** Enciphers `data` and writes it at `offset`. */
    function WriteInternal(data: seq<byte>, offset: nat, n: nat, isFinal: bool): (r: Result<Simple>)
      requires Shape()
      ensures r.Ok? ==> r.value.Shape() && r.value.provider == provider && r.value.contentStart == contentStart
    {
      var capacity :- provider.GetCipherTextSize(|data|);
      var cipher :- provider.Encrypt(data, n, isFinal);
      Ok(this.(backing := ArrayWrite(backing, contentStart + offset, cipher),
               contentSize := Max(contentSize, offset + |data|)))
    }

    /** Size(newSize). To grow it asks for the position, which takes the lock that it holds itself. */
    function SetSize(newSize: nat): (r: Result<Simple>)
      requires Shape()
      ensures r.Ok? ==> r.value.Shape() && r.value.provider == provider && r.value.contentStart == contentStart
    {
      if newSize > contentSize then Err(Blocked) else Ok(Shrink(newSize))
    }

    /** A size that does not grow, on a backing stream that honours Size. */
    function Shrink(newSize: nat): (r: Simple)
      requires Shape() && newSize <= contentSize
      ensures r.Shape() && r.provider == provider && r.contentStart == contentStart && r.contentSize == newSize
    {
      if newSize < contentSize then
        this.(backing := Resize(backing, contentStart + newSize), contentSize := newSize)
      else this
    }
  }

  /** One cached block in front of a Simple. */
  datatype Cache = Cache(simple: Simple, start: nat, size: nat, buffer: seq<byte>, finalWritten: bool, pending: bool) {

    function BlockSize(): (r: nat)
      ensures r == 512 || r == 4096
    {
      simple.provider.CacheBlock()
    }

    predicate Shape() {
      simple.Shape() && |buffer| == BlockSize() && size <= BlockSize()
    }

    /** The result is a 32-bit integer. */
    function CalculateBlockNumber(pos: nat): nat
      decreases if finalWritten then 2 else 0
    {
      var n := pos / BlockSize();
      if finalWritten && n * BlockSize() == GetSizeInternal() && pos != GetSizeInternal() && n > 0
      then (n - 1) % TWO_32
      else n % TWO_32
    }

    /** Mutually recursive with CalculateBlockNumber, which asks for the size only once the final block is written. */
    function GetSizeInternal(): nat
      decreases 1
    {
      if pending && !finalWritten then CalculateBlockNumber(start) * BlockSize() + size
      else simple.contentSize
    }

    /** Writes the pending block out before the cache moves to the block of `pos`. */
    function Evict(pos: nat): (r: Result<Cache>)
      requires Shape()
      ensures r.Ok? ==> r.value.Shape()
    {
      var isLast := start + BlockSize() >= simple.contentSize;
      var isFinal := isLast && pos < start + BlockSize();
      var s :- simple.WriteInternal(buffer[..size], start, CalculateBlockNumber(start), isFinal);
      Ok(this.(simple := s, finalWritten := finalWritten || isFinal, pending := false))
    }

    function Load(n: nat): (r: Result<Cache>)
      requires Shape()
      ensures r.Ok? ==> r.value.Shape()
    {
      var isFinal := n * BlockSize() + BlockSize() >= simple.contentSize;
      var read :- simple.ReadInternal(buffer, n * BlockSize(), n, isFinal);
      Ok(this.(start := n * BlockSize(), size := read.1, buffer := read.0))
    }

    /** Makes the block of `pos` the cached one. */
    function UpdateBlock(pos: nat): (r: Result<Cache>)
      requires Shape()
      ensures r.Ok? ==> r.value.Shape()
    {
      var n := CalculateBlockNumber(pos);
      if start != NO_BLOCK && CalculateBlockNumber(start) == n then Ok(this)
      else
        var c :- if pending then Evict(pos) else Ok(this);
        c.Load(n)
    }

    function ReadFromBlock(pos: nat, n: nat): (r: seq<byte>)
      requires Shape()
      ensures |r| <= n
    {
      if start <= pos < start + size then buffer[pos - start..pos - start + Min(n, size - (pos - start))] else []
    }

    /** How many of `n` bytes at `pos` go into the cached block. */
    function Room(pos: nat, n: nat): nat {
      if start <= pos < start + BlockSize() then Min(n, BlockSize() - (pos - start)) else 0
    }

    function WriteToBlock(data: seq<byte>, pos: nat): (r: Cache)
      requires Shape()
      ensures r.Shape()
    {
      var n := Room(pos, |data|);
      if start <= pos < start + BlockSize() then
        this.(pending := pending || n > 0,
              buffer := Splice(buffer, pos - start, data[..n]),
              size := Max(size, pos - start + n),
              finalWritten := finalWritten && start + BlockSize() < simple.contentSize)
      else this
    }

    /**
     Reads the byte before `newSize` and writes it back, so that its block will be enciphered again. A byte that cannot
     be read is written back unset.
     */
    function RewriteFinalBlock(newSize: nat): (r: Result<Cache>)
      requires Shape()
      ensures r.Ok? ==> r.value.Shape()
    {
      if newSize == 0 then Ok(this)
      else
        var c :- UpdateBlock(newSize - 1);
        var read := c.ReadFromBlock(newSize - 1, 1);
        var b := if read == [] then [simple.provider.platform.unset] else read;
        Ok(c.(finalWritten := false).WriteToBlock(b, newSize - 1))
    }

    function Flush(): (r: Result<Cache>)
      requires Shape()
      ensures r.Ok? ==> r.value.Shape()
    {
      var cacheStart := if start == NO_BLOCK then 0 else start;
      var isFinal := cacheStart + BlockSize() >= simple.contentSize;
      var s :- simple.WriteInternal(buffer[..size], cacheStart, CalculateBlockNumber(cacheStart), isFinal);
      Ok(this.(simple := s, finalWritten := finalWritten || isFinal, pending := false))
    }

    /** Cuts the cached block to a smaller stream size. */
    function SizeInternal(newSize: nat): (r: Result<Cache>)
      requires Shape()
      ensures r.Ok? ==> r.value.Shape()
    {
      var position := CalculateBlockNumber(start) * BlockSize();
      if position > newSize then Err(InvalidArgument) else Ok(this.(size := Min(size, newSize - position)))
    }

    /** Cuts the backing stream, then the cached block. */
    function CutTo(newSize: nat): (r: Result<Cache>)
      requires Shape()
      ensures r.Ok? ==> r.value.Shape()
    {
      var s :- simple.SetSize(newSize);
      this.(simple := s).SizeInternal(newSize)
    }

    /** All steps of a cut. */
    function Cut(newSize: nat): (r: Result<Cache>)
      requires Shape()
      ensures r.Ok? ==> r.value.Shape()
    {
      var c :- RewriteFinalBlock(newSize);
      c.CutTo(newSize)
    }
  }
}
