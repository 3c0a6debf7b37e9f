/**
 The protected stream as the original has it: a block-enciphered stream over a backing stream, a cache of one
 block, and the random-access stream on top. The two inner classes compute the functions of CacheModel; the
 outer class is a plain byte array to its callers.
 */
module ProtectedStream {
  import opened Backing
  import opened Bytes
  import opened Wrappers
  import opened Providers
  import opened CacheModel
  import opened CacheTheory
  import opened CipherFormat
  import opened RunTheory
  import opened ReloadTheory
  import opened LoopTheory
  import opened OpenTheory
  import ProviderLoops

  class SimpleProtectedStream {
    const provider: Provider
    const backing: BackingStream
    const contentStart: nat
    var contentSize: nat

    ghost function Value(): Simple
      reads this, backing
    {
      Simple(provider, contentStart, backing.bytes, contentSize)
    }

    constructor Build(provider: Provider, backing: BackingStream, contentStart: nat, contentSize: nat)
      ensures this.provider == provider && this.backing == backing
      ensures this.contentStart == contentStart && this.contentSize == contentSize
    {
      this.provider, this.backing, this.contentStart, this.contentSize := provider, backing, contentStart, contentSize;
    }

    /** Refuses content that would start behind the end of the backing stream. */
    static method Create(provider: Provider, backing: BackingStream, contentStart: nat, contentSize: nat)
      returns (r: Result<SimpleProtectedStream>)
      modifies backing`position
      ensures r.Ok? <==> contentStart <= |backing.bytes|
      ensures r.Ok? ==> fresh(r.value)
      ensures r.Ok? ==> r.value.backing == backing
      ensures r.Ok? ==>
                r.value.Value() == Simple(provider, contentStart, backing.bytes,
                                          Min(contentSize, |backing.bytes| - contentStart))
    {
      if contentStart > |backing.bytes| {
        return Err(InvalidArgument);
      }
      var size := Min(contentSize, |backing.bytes| - contentStart);
      var s := new SimpleProtectedStream.Build(provider, backing, contentStart, size);
      backing.Seek(contentStart);
      return Ok(s);
    }

    method ReadInternal(buffer: array<byte>, offset: nat, n: nat, isFinal: bool) returns (r: Result<nat>)
      requires Value().Shape()
      modifies backing`position, buffer
      ensures var spec := Value().ReadInternal(old(buffer[..]), offset, n, isFinal);
              && (r.Ok? <==> spec.Ok?)
              && (r.Ok? ==> buffer[..] == spec.value.0 && r.value == spec.value.1)
    {
      hide Provider.Decrypt, Provider.Behind, ArrayRead;
      var left := (contentSize - offset) % TWO_64;
      var toRead := Min(buffer.Length, left);
      backing.Seek(contentStart + offset);
      var cipherText := backing.Read(toRead);
      if |cipherText| > 0 {
        r := ProviderLoops.Decrypt(provider, cipherText, n, isFinal, buffer);
      } else {
        r := Ok(0);
      }
    }

    method WriteInternal(data: seq<byte>, offset: nat, n: nat, isFinal: bool) returns (r: Result<nat>)
      requires Value().Shape()
      modifies this`contentSize, backing
      ensures var spec := old(Value()).WriteInternal(data, offset, n, isFinal);
              && (r.Ok? <==> spec.Ok?)
              && (r.Ok? ==> Value() == spec.value)
              && (r.Err? ==> Value() == old(Value()))
    {
      var encryptedSize := provider.GetCipherTextSize(|data|);
      if encryptedSize.Err? {
        return Err(encryptedSize.error);
      }
      var cipherText := new byte[encryptedSize.value];
      r := ProviderLoops.Encrypt(provider, data, n, isFinal, cipherText);
      if r.Ok? {
        backing.WriteAsync(cipherText[..r.value], offset + contentStart);
        contentSize := Max(contentSize, offset + |data|);
      }
    }

    /** Cuts; growing appends zeros, for which it asks for the position under its own lock and never gets it. */
    method Size(newSize: nat) returns (r: Result<()>)
      requires Value().Shape()
      modifies this`contentSize, backing`bytes
      ensures var spec := old(Value()).SetSize(newSize);
              if spec.Ok? then r.Ok? && Value() == spec.value
              else r == Err(Blocked) && Value() == old(Value())
    {
      if contentSize > newSize {
        contentSize := newSize;
        backing.Resize(contentStart + contentSize);
      } else if contentSize < newSize {
        return Err(Blocked);
      }
      return Ok(());
    }
  }

  class CachedBlock {
    const simple: SimpleProtectedStream
    const blockSize: nat
    const cache: array<byte>
    var cacheStart: nat
    var cacheSize: nat
    var finalBlockHasBeenWritten: bool
    var writePending: bool

    ghost function Value(): Cache
      reads this, simple, simple.backing, cache
    {
      Cache(simple.Value(), cacheStart, cacheSize, cache[..], finalBlockHasBeenWritten, writePending)
    }

    ghost predicate Shape()
      reads this, simple, simple.backing, cache
    {
      blockSize == simple.provider.CacheBlock() && Value().Shape()
    }

    constructor (simple: SimpleProtectedStream)
      requires simple.Value().Shape()
      ensures this.simple == simple && fresh(cache) && Shape()
      ensures cacheStart == NO_BLOCK == 0xFFFF_FFFF_FFFF_FFFF && cacheSize == 0
      ensures !finalBlockHasBeenWritten && !writePending
    {
      this.simple := simple;
      blockSize := simple.provider.CacheBlock();
      cache := new byte[simple.provider.CacheBlock()](i => 0);
      cacheStart, cacheSize := NO_BLOCK, 0;
      finalBlockHasBeenWritten, writePending := false, false;
    }

    function CalculateBlockNumber(pos: nat): (r: nat)
      requires Shape()
      reads this, simple, simple.backing, cache
      ensures r == Value().CalculateBlockNumber(pos)
      decreases if finalBlockHasBeenWritten then 2 else 0
    {
      var n := pos / blockSize;
      if finalBlockHasBeenWritten && n * blockSize == GetSizeInternal() && pos != GetSizeInternal() && n > 0
      then (n - 1) % TWO_32
      else n % TWO_32
    }

    function GetSizeInternal(): (r: nat)
      requires Shape()
      reads this, simple, simple.backing, cache
      ensures r == Value().GetSizeInternal()
      decreases 1
    {
      if writePending && !finalBlockHasBeenWritten then CalculateBlockNumber(cacheStart) * blockSize + cacheSize
      else simple.contentSize
    }

    method UpdateBlock(pos: nat) returns (r: Result<()>)
      requires Shape()
      modifies this, cache, simple`contentSize, simple.backing
      ensures r.Ok? <==> old(Value()).UpdateBlock(pos).Ok?
      ensures r.Ok? ==> Shape() && Value() == old(Value()).UpdateBlock(pos).value
    {
      hide Simple.ReadInternal, Simple.WriteInternal, Cache.CalculateBlockNumber, CalculateBlockNumber;
      var blockNumber := CalculateBlockNumber(pos);
      if cacheStart != NO_BLOCK && CalculateBlockNumber(cacheStart) == blockNumber {
        return Ok(());
      }
      if writePending {
        var isLast := cacheStart + blockSize >= simple.contentSize;
        var isFinal := false;
        if isLast {
          if pos < cacheStart + blockSize {
            isFinal := true;
          }
        }
        var written := simple.WriteInternal(cache[..cacheSize], cacheStart, CalculateBlockNumber(cacheStart), isFinal);
        if written.Err? {
          return Err(written.error);
        }
        if isFinal {
          finalBlockHasBeenWritten := true;
        }
        writePending := false;
        assert old(Value()).Evict(pos) == Ok(Value());
      }
      cacheStart := blockNumber * blockSize;
      var isNewFinal := cacheStart + blockSize >= simple.contentSize;
      var read := simple.ReadInternal(cache, cacheStart, blockNumber, isNewFinal);
      if read.Err? {
        return Err(read.error);
      }
      cacheSize := read.value;
      return Ok(());
    }

    method ReadFromBlock(pos: nat, n: nat) returns (r: seq<byte>)
      requires Shape()
      ensures r == Value().ReadFromBlock(pos, n)
    {
      if cacheStart <= pos < cacheStart + cacheSize {
        var positionInCache := pos - cacheStart;
        var toRead := Min(n, cacheSize - positionInCache);
        r := cache[positionInCache..positionInCache + toRead];
      } else {
        r := [];
      }
    }

    lemma StoredIsSpliced(c: seq<byte>, at: nat, d: seq<byte>, s: seq<byte>)
      requires at + |d| <= |c| == |s| && s[..at + |d|] == c[..at] + d && s[at + |d|..] == c[at + |d|..]
      ensures s == Splice(c, at, d)
    {
      assert s == s[..at + |d|] + s[at + |d|..];
    }

    method WriteToBlock(data: seq<byte>, pos: nat) returns (written: nat)
      requires Shape()
      modifies this, cache
      ensures written == old(Value()).Room(pos, |data|)
      ensures Shape() && Value() == old(Value()).WriteToBlock(data, pos)
    {
      hide Splice;
      if cacheStart <= pos < cacheStart + blockSize {
        var positionInCache := pos - cacheStart;
        var toWrite := Min(|data|, blockSize - positionInCache);
        if toWrite > 0 {
          writePending := true;
        }
        ProviderLoops.Store(cache, positionInCache, data[..toWrite]);
        cacheSize := Max(cacheSize, positionInCache + toWrite);
        if cacheStart + blockSize >= simple.contentSize {
          finalBlockHasBeenWritten := false;
        }
        StoredIsSpliced(old(cache[..]), positionInCache, data[..toWrite], cache[..]);
        written := toWrite;
      } else {
        written := 0;
      }
    }

    method RewriteFinalBlock(newSize: nat) returns (r: Result<()>)
      requires Shape()
      modifies this, cache, simple`contentSize, simple.backing
      ensures r.Ok? <==> old(Value()).RewriteFinalBlock(newSize).Ok?
      ensures r.Ok? ==> Shape() && Value() == old(Value()).RewriteFinalBlock(newSize).value
    {
      hide Cache.UpdateBlock, Cache.ReadFromBlock, Cache.WriteToBlock;
      if newSize != 0 {
        var updated := UpdateBlock(newSize - 1);
        if updated.Err? {
          return updated;
        }
        var b := ReadFromBlock(newSize - 1, 1);
        if b == [] {
          b := [simple.provider.platform.unset];
        }
        finalBlockHasBeenWritten := false;
        var _ := WriteToBlock(b, newSize - 1);
      }
      return Ok(());
    }

    method Flush() returns (r: Result<()>)
      requires Shape()
      modifies this, simple`contentSize, simple.backing
      ensures r.Ok? <==> old(Value()).Flush().Ok?
      ensures r.Ok? ==> Shape() && Value() == old(Value()).Flush().value
      ensures r.Err? ==> Value() == old(Value())
    {
      hide Simple.WriteInternal, Cache.CalculateBlockNumber, CalculateBlockNumber;
      var start := cacheStart;
      if cacheStart == NO_BLOCK {
        start := 0;
      }
      var isFinal := start + blockSize >= simple.contentSize;
      var written := simple.WriteInternal(cache[..cacheSize], start, CalculateBlockNumber(start), isFinal);
      if written.Err? {
        return Err(written.error);
      }
      if isFinal {
        finalBlockHasBeenWritten := true;
      }
      writePending := false;
      return Ok(());
    }

    method SizeInternal(newSize: nat) returns (r: Result<()>)
      requires Shape()
      modifies this`cacheSize
      ensures r.Ok? <==> old(Value()).SizeInternal(newSize).Ok?
      ensures r.Ok? ==> Shape() && Value() == old(Value()).SizeInternal(newSize).value
      ensures r.Err? ==> Value() == old(Value())
    {
      var position := CalculateBlockNumber(cacheStart) * blockSize;
      if position > newSize {
        return Err(InvalidArgument);
      }
      cacheSize := Min(cacheSize, newSize - position);
      return Ok(());
    }
  }

  /** What a new stream can denote: nothing as a writer, the plain bytes of finished ciphertext as a reader. */
  ghost predicate Opens(s: Simple, canWrite: bool, writer: bool, content: seq<byte>)
    requires s.Shape()
  {
    && s.contentSize == |s.Region()|
    && if writer then canWrite && content == [] && s.Region() == []
       else s.provider.Legal(|content|) && s.Region() == Whole(s.provider, content)
            && Fits(s.provider.CacheBlock(), |s.Region()|)
  }

  /**
   A writer's stream denotes `content`, a reader's the plain bytes behind the ciphertext it was opened on.
   */
  class BlockBasedProtectedStream {
    const simple: SimpleProtectedStream
    const cachedBlock: CachedBlock
    var position: nat
    var isPositionValid: bool
    var newSize: nat
    ghost const writer: bool
    ghost var content: seq<byte>

    ghost function Footprint(): set<object> {
      {this, cachedBlock, cachedBlock.cache, cachedBlock.simple, cachedBlock.simple.backing}
    }

    ghost function Cached(): Cache
      reads Footprint()
    {
      cachedBlock.Value()
    }

    /** The objects fit together; enough for the loops. */
    ghost predicate Sound()
      reads Footprint()
    {
      cachedBlock.simple == simple && cachedBlock.Shape()
    }

    ghost predicate Valid()
      reads Footprint()
    {
      && Sound()
      && Denotes(writer, Cached(), content)
      && (writer ==> simple.backing.canWrite && isPositionValid)
    }

    ghost function Region(): seq<byte>
      requires Sound()
      reads Footprint()
    {
      Cached().simple.Region()
    }

    /** A stream on content that is still empty writes; one on finished ciphertext reads. */
    constructor (simple: SimpleProtectedStream, ghost writer: bool, ghost content: seq<byte>)
      requires simple.Value().Shape()
      ensures Sound() && this.simple == simple && this.writer == writer && this.content == content
      ensures Opens(simple.Value(), simple.backing.canWrite, writer, content) ==> Valid()
      ensures fresh(cachedBlock) && fresh(cachedBlock.cache)
      ensures position == 0 && isPositionValid
      ensures Cached().start == NO_BLOCK && !Cached().finalWritten && !Cached().pending
    {
      this.simple := simple;
      cachedBlock := new CachedBlock(simple);
      position, isPositionValid, newSize := 0, true, 0;
      this.writer, this.content := writer, content;
    }

    function SizeInner(): (r: nat)
      requires Sound()
      reads Footprint()
      ensures Valid() && writer ==> r == |content|
      ensures Valid() && !writer ==> r == simple.contentSize
    {
      assert Valid() ==> cachedBlock.GetSizeInternal() == if writer then |content| else simple.contentSize by {
        if Valid() {
          ReportedSize(writer, Cached(), content);
        }
      }
      cachedBlock.GetSizeInternal()
    }

    // -------------------------------------------------------------- the loops

    /** The read loop from a position that has been sought. */
    method ReadFromPosition(n: nat) returns (r: Result<seq<byte>>)
      requires Sound()
      modifies Footprint()
      ensures isPositionValid == old(isPositionValid) && content == old(content)
      ensures var spec := ReadLoop(old(Cached()), old(position), n);
              && (r.Ok? <==> spec.Ok?)
              && (r.Ok? ==> Sound() && r.value == spec.value.0 && Cached() == spec.value.1
                            && position == old(position) + |r.value|)
    {
      hide ReadLoop, Cache.UpdateBlock, Cache.ReadFromBlock, Cache.GetSizeInternal, CachedBlock.GetSizeInternal;
      ghost var spec := ReadLoop(Cached(), position, n);
      var buffer, size: nat := [], n;
      while size > 0 && position < cachedBlock.GetSizeInternal()
        invariant Sound() && isPositionValid == old(isPositionValid) && content == old(content)
        invariant position == old(position) + |buffer|
        invariant var rest := ReadLoop(Cached(), position, size);
                  && (spec.Ok? <==> rest.Ok?)
                  && (rest.Ok? ==> spec.value.0 == buffer + rest.value.0 && spec.value.1 == rest.value.1)
        decreases size
      {
        ghost var c := Cached();
        var updated := cachedBlock.UpdateBlock(position);
        if updated.Err? {
          ReadLoopFails(c, position, size);
          return Err(updated.error);
        }
        var read := cachedBlock.ReadFromBlock(position, size);
        ReadLoopStep(c, Cached(), position, size, read);
        if |read| == 0 {
          return Ok(buffer);
        }
        position := position + |read|;
        size := size - |read|;
        buffer := buffer + read;
      }
      ReadLoopEnds(Cached(), position, size);
      return Ok(buffer);
    }

    /** The write loop from a position that has been sought. */
    method WriteFromPosition(data: seq<byte>) returns (r: Result<nat>)
      requires Sound()
      modifies Footprint()
      ensures isPositionValid == old(isPositionValid) && content == old(content)
      ensures var spec := WriteLoop(old(Cached()), old(position), data);
              && (r.Ok? <==> spec.Ok?)
              && (r.Ok? ==> Sound() && r.value == spec.value.0 && Cached() == spec.value.1
                            && position == old(position) + r.value)
    {
      hide WriteLoop, Cache.UpdateBlock, Cache.WriteToBlock;
      ghost var spec := WriteLoop(Cached(), position, data);
      var buffer, written := data, 0;
      while |buffer| > 0
        invariant Sound() && isPositionValid == old(isPositionValid) && content == old(content)
        invariant position == old(position) + written
        invariant var rest := WriteLoop(Cached(), position, buffer);
                  && (spec.Ok? <==> rest.Ok?)
                  && (rest.Ok? ==> spec.value.0 == written + rest.value.0 && spec.value.1 == rest.value.1)
        decreases |buffer|
      {
        ghost var c := Cached();
        var updated := cachedBlock.UpdateBlock(position);
        if updated.Err? {
          WriteLoopEnds(c, c, position, buffer);
          return Err(updated.error);
        }
        ghost var m := Cached();
        var count := cachedBlock.WriteToBlock(buffer, position);
        if count == 0 {
          WriteLoopEnds(c, m, position, buffer);
          NothingWritten(m, buffer, position);
          return Ok(written);
        }
        WriteLoopStep(c, m, Cached(), position, buffer, count);
        buffer := buffer[count..];
        position := position + count;
        written := written + count;
      }
      WriteLoopEnds(Cached(), Cached(), position, buffer);
      return Ok(written);
    }

    // -------------------------------------------------------------- seeking, growing and shrinking

    /**
     Moves the position; past the end of a writable stream the content first grows with zeros, past the end of
     a read-only one the position is lost. Growing throws exactly when the cache cannot come to the end.
     */
    method SeekInternal(pos: nat) returns (r: Result<()>)
      requires Valid()
      requires writer ==> Fits(Cached().BlockSize(), pos)
      requires !writer && simple.backing.canWrite ==> pos <= simple.contentSize
      modifies Footprint()
      ensures r.Ok? <==> !writer || pos <= |old(content)| || Reaches(old(Cached()), old(content), |old(content)|)
      ensures r.Ok? ==> Valid() && SameContainer(old(Cached()), Cached())
      ensures writer && r.Ok? ==> position == pos
      ensures writer && r.Ok? && pos <= |old(content)| ==> content == old(content) && Cached() == old(Cached())
      ensures (writer && r.Ok? && pos > |old(content)|)
                ==> && content == ZeroExtend(Base(old(Cached()), old(content), pos, 0), pos)
                    && CanMove(Cached(), pos, pos)
                    && Cached().start == (pos - 1) / Cached().BlockSize() * Cached().BlockSize()
      ensures !writer ==>
                && content == old(content) && Cached() == old(Cached())
                && isPositionValid == (pos <= simple.contentSize)
                && position == if pos <= simple.contentSize then pos else old(position)
      decreases if pos > |content| then 1 else 0, 4
    {
      hide Denotes, CanMove, Reaches, CanWriteAt, Cache.GetSizeInternal, CachedBlock.GetSizeInternal, SameContainer;
      assert SameContainer(Cached(), Cached()) by { SameContainerReflexive(Cached()); }
      if pos > SizeInner() {
        if simple.backing.canWrite {
          var grown := SetSizeInner(pos);
          if grown.Err? {
            return grown;
          }
        } else {
          isPositionValid := false;
          return Ok(());
        }
      }
      isPositionValid := true;
      position := pos;
      return Ok(());
    }

    /**
     Sets the size. A cut to nothing throws exactly when another block than the first is cached; any other cut throws
     when the byte before the new size cannot be reached, and never returns when that byte is cached but not counted.
     */
    method SetSizeInner(value: nat) returns (r: Result<()>)
      requires Valid() && writer && Fits(Cached().BlockSize(), value)
      modifies Footprint()
      ensures r.Ok? <==> value == |old(content)| || SizeReaches(old(Cached()), old(content), value)
      ensures CutBlocks(old(Cached()), old(content), value) ==> r == Err(Blocked)
      ensures r.Ok? ==> Valid() && SameContainer(old(Cached()), Cached())
      ensures value == |old(content)| ==>
                content == old(content) && Cached() == old(Cached()) && position == old(position)
      ensures (r.Ok? && value > |old(content)|)
                ==> && content == ZeroExtend(Base(old(Cached()), old(content), value, 0), value)
                    && Cached().start == (value - 1) / Cached().BlockSize() * Cached().BlockSize()
      ensures (r.Ok? && value < |old(content)|)
                ==> && content == CutContent(old(Cached()), old(content), value) && simple.contentSize == value
                    && Cached().start == CutStart(Cached().BlockSize(), value)
      ensures (r.Ok? && value != |old(content)|)
                ==> position == Min(old(position), value) && CanMove(Cached(), value, value)
      decreases if value != |content| then 1 else 0, 3
    {
      hide Denotes, CanMove, Reaches, LastIsCounted, CutContent, CanWriteAt, Cache.GetSizeInternal,
        CachedBlock.GetSizeInternal, SameContainer;
      assert SameContainer(Cached(), Cached()) by { SameContainerReflexive(Cached()); }
      if SizeInner() != value {
        newSize := value;
        r := ProcessSizeChangeRequest();
      } else {
        r := Ok(());
      }
    }

    method ProcessSizeChangeRequest() returns (r: Result<()>)
      requires Valid() && writer && newSize != |content| && Fits(Cached().BlockSize(), newSize)
      modifies Footprint()
      ensures r.Ok? <==> SizeReaches(old(Cached()), old(content), old(newSize))
      ensures CutBlocks(old(Cached()), old(content), old(newSize)) ==> r == Err(Blocked)
      ensures r.Ok? ==> Valid() && SameContainer(old(Cached()), Cached())
      ensures (r.Ok? && old(newSize) > |old(content)|)
                ==> && content == ZeroExtend(Base(old(Cached()), old(content), old(newSize), 0), old(newSize))
                    && Cached().start == (old(newSize) - 1) / Cached().BlockSize() * Cached().BlockSize()
      ensures (r.Ok? && old(newSize) < |old(content)|)
                ==> && content == CutContent(old(Cached()), old(content), old(newSize))
                    && simple.contentSize == old(newSize)
                    && Cached().start == CutStart(Cached().BlockSize(), old(newSize))
      ensures r.Ok? ==> position == Min(old(position), old(newSize)) && CanMove(Cached(), |content|, |content|)
      decreases 1, 2
    {
      hide Denotes, CanMove, CanWriteAt, Reaches, LastIsCounted, CutContent, Cache.GetSizeInternal,
        CachedBlock.GetSizeInternal, SameContainer, Cache.Shape, Cache.CutTo, Cache.RewriteFinalBlock;
      ghost var value, c0, whole := newSize, Cached(), content;
      var oldSize := SizeInner();
      var originalPosition := position;
      if newSize > oldSize {
        var filled := FillWithZeros(newSize);
        if filled.Err? {
          return filled;
        }
      } else {
        CutExact(c0, content, newSize);
        var rewritten := cachedBlock.RewriteFinalBlock(newSize);
        if rewritten.Err? {
          return rewritten;
        }
        var cut := SizeInternal(newSize);
        if cut.Err? {
          return cut;
        }
        content := CutContent(c0, whole, value);
      }
      var target := Min(originalPosition, SizeInner());
      r := SeekInternal(target);
    }

    /** Cuts backing stream, position and cache; a position past the end moves before it, below zero if need be. */
    method SizeInternal(size: nat) returns (r: Result<()>)
      requires Sound()
      modifies this`position, cachedBlock`cacheSize, simple`contentSize, simple.backing
      ensures var spec := old(Cached()).CutTo(size);
              && (r.Ok? <==> spec.Ok?) && (r.Ok? ==> Sound() && Cached() == spec.value)
              && (spec == Err(Blocked) ==> r == Err(Blocked))
    {
      hide Simple.Shrink, Cache.CalculateBlockNumber;
      ghost var c := Cached();
      var sized := simple.Size(size);
      if sized.Err? {
        return sized;
      }
      assert Cached() == c.(simple := c.simple.SetSize(size).value);
      if position > size {
        position := (size - 1) % TWO_64;
      }
      r := cachedBlock.SizeInternal(size);
    }

    /** Writes zeros until the size is reached, exactly; throws exactly when the cache cannot come to the end. */
    method FillWithZeros(value: nat) returns (r: Result<()>)
      requires Valid() && writer && value > |content| && Fits(Cached().BlockSize(), value)
      modifies Footprint()
      ensures r.Ok? <==> Reaches(old(Cached()), old(content), |old(content)|)
      ensures r.Ok? ==> Valid() && SameContainer(old(Cached()), Cached())
      ensures r.Ok? ==> content == ZeroExtend(Base(old(Cached()), old(content), value, 0), value)
      ensures r.Ok? ==> CanMove(Cached(), |content|, |content|)
      ensures r.Ok? ==> Cached().start == (value - 1) / Cached().BlockSize() * Cached().BlockSize()
      decreases 1, 1
    {
      hide Denotes, CanMove, CanWriteAt, Reaches, Cache.GetSizeInternal, CachedBlock.GetSizeInternal, SameContainer,
        Cache.BlockSize, WriteKeeps, WriteReaches, ArrayWrite, Base;
      var bufferSize := cachedBlock.blockSize;
      var zeros := Zeros(bufferSize);
      ghost var c0, whole := Cached(), content;
      r := SeekInternal(SizeInner());
      while value > SizeInner()
        invariant Valid() && |whole| <= |content| <= value && position == |content| && r.Ok?
        invariant Filled(c0, Cached(), whole, content, value)
        decreases value - |content|
      {
        var toWrite := Min(value - SizeInner(), bufferSize);
        ghost var before, was := Cached(), content;
        FillGoesOn(c0, before, whole, was, value, toWrite);
        var written := WriteInternalAsync(zeros[..toWrite], position);
        if written.Err? {
          return Err(written.error);
        }
        assert zeros[..toWrite] == Zeros(toWrite);
        FilledMore(c0, before, Cached(), whole, was, content, value, toWrite);
      }
      return Ok(());
    }

    /**
     Seeks, then writes block by block. Throws on a stream that cannot be written, and where the cache cannot come to
     the block it needs. A write that cannot run but covers the end goes on from the content as the cache sees it;
     one that ends before leaves a shorter stream, which stands for no content any more.
     */
    method WriteInternalAsync(data: seq<byte>, offset: nat) returns (r: Result<nat>)
      requires Valid() && (writer ==> Fits(Cached().BlockSize(), offset + |data|))
      requires !writer && simple.backing.canWrite ==> offset <= simple.contentSize
      modifies Footprint()
      ensures (!simple.backing.canWrite || !old(isPositionValid))
                ==> r == Err(InvalidArgument) && Valid() && Cached() == old(Cached()) && content == old(content)
      ensures (!writer && simple.backing.canWrite && old(isPositionValid))
                ==> WroteExisting(old(Cached()), old(content), offset, data, r, Cached()) && (r.Ok? ==> Sound())
      ensures writer ==> (r.Ok? <==> WriteReaches(old(Cached()), old(content), offset, |data|))
      ensures writer && r.Ok? ==> r.value == |data| && Sound() && SameContainer(old(Cached()), Cached())
      ensures (writer && offset <= |old(content)| && WritesBack(old(Cached()), old(content), offset, |data|))
                ==> r.Ok? && Valid() && content == ArrayWrite(old(content), offset, data)
      ensures (writer && r.Ok? && WriteKeeps(old(Cached()), old(content), offset, |data|))
                ==> && Valid() && position == offset + |data|
                    && content == ArrayWrite(Base(old(Cached()), old(content), offset, |data|), offset, data)
                    && Cached().start == TouchedLast(Cached().BlockSize(), old(Cached()).start,
                                                     Min(offset, |old(content)|), offset + |data|)
                    && (data == [] && offset <= |old(content)| ==> Cached() == old(Cached()))
      ensures (writer && r.Ok? && !WriteKeeps(old(Cached()), old(content), offset, |data|))
                ==> SizeInner() == Max(Recovered(old(Cached()).BlockSize(), old(content)), offset + |data|)
                    < |old(content)|
      decreases if offset > |content| then 1 else 0, 5
    {
      hide Denotes, CanMove, CanWriteAt, Reaches, SameContainer, Cache.GetSizeInternal, CachedBlock.GetSizeInternal,
        Base, Recovered, Reloads, WriteLoop, Cache.BlockSize, TouchedLast, ArrayWrite, WritesBack, WroteExisting;
      ghost var c0, whole := Cached(), content;
      if !simple.backing.canWrite || !isPositionValid {
        assert SameContainer(c0, Cached()) by { SameContainerReflexive(c0); }
        return Err(InvalidArgument);
      }
      var sought := SeekInternal(offset);
      if sought.Err? {
        GrowthOutcome(c0, whole, offset, |data|);
        return Err(sought.error);
      }
      ghost var c1, grown := Cached(), content;
      if writer {
        WriteOutcome(c1, grown, offset, data);
        WholeWrite(c0, c1, whole, grown, offset, data);
        if offset <= |whole| && WritesBack(c0, whole, offset, |data|) {
          BaseWritesBack(c0, whole, offset, data);
        }
      }
      r := WriteFromPosition(data);
      if writer && r.Ok? {
        SameContainerTransitive(c0, c1, Cached());
      }
      if !writer {
        ExistingDone(c0, whole, offset, data, r, Cached());
      } else if r.Ok? && WriteKeeps(c0, whole, offset, |data|) {
        content := ArrayWrite(Base(c0, whole, offset, |data|), offset, data);
      }
    }

    // -------------------------------------------------------------- the stream's interface

    /**
     A reader and a writer return what a plain array returns; for a writer exactly when ReadsBack holds. A read that
     must reload a padded last block throws, or returns the bytes before those which look like padding; the backing
     stream keeps the whole content.
     */
    method ReadAsync(n: nat, offset: nat) returns (r: Result<seq<byte>>)
      requires Valid()
      requires writer ==> Fits(Cached().BlockSize(), offset)
      requires !writer && simple.backing.canWrite ==> offset <= simple.contentSize
      modifies Footprint()
      ensures !writer ==> Valid() && SameContainer(old(Cached()), Cached()) && simple.Value() == old(simple.Value())
      ensures !writer ==> (r.Ok? <==> old(isPositionValid))
      ensures !writer && r.Ok? ==>
                && content == old(content)
                && r.value == ArrayRead(content, if offset <= simple.contentSize then offset else old(position), n)
                && isPositionValid == (offset <= simple.contentSize)
      ensures (writer && CanReadAt(old(Cached()), |old(content)|, offset, n))
                ==> && r.Ok? && Valid() && SameContainer(old(Cached()), Cached())
                    && content == ZeroExtend(old(content), offset) && r.value == ArrayRead(content, offset, n)
                    && Cached().start == ReadStart(old(Cached()), |old(content)|, offset, n)
      ensures (writer && offset <= |old(content)|)
                ==> (r.Ok? && r.value == ArrayRead(old(content), offset, n)
                     <==> ReadsBack(old(Cached()), old(content), offset, n))
      ensures (writer && offset <= |old(content)| && !CanReadAt(old(Cached()), |old(content)|, offset, n))
                ==> LostReadAt(old(Cached()), old(content), offset, n, r, Cached())
      ensures (writer && offset > |old(content)|)
                ==> && (r.Ok? <==> Reaches(old(Cached()), old(content), |old(content)|))
                    && (r.Ok? ==> Valid() && r.value == []
                                  && content == ZeroExtend(Base(old(Cached()), old(content), offset, 0), offset))
    {
      hide Denotes, CanRun, CanReadAt, SameContainer, CanMove, Reaches, ReadsBack, ReadLoop, Base, Recovered, Reloads;
      if !isPositionValid {
        SameContainerReflexive(Cached());
        return Err(InvalidArgument);
      }
      ghost var c0, whole := Cached(), content;
      var sought := SeekInternal(offset);
      if sought.Err? {
        ReadGrowth(c0, whole, offset, n);
        return Err(sought.error);
      }
      ghost var c1 := Cached();
      if writer {
        ReadOutcome(c1, content, offset, n);
        WholeRead(c0, c1, whole, content, offset, n);
      } else {
        ReadLoopReads(c1, content, position, n);
      }
      r := ReadFromPosition(n);
      if r.Ok? && (writer ==> CanReadAt(c0, |whole|, offset, n)) {
        SameContainerTransitive(c0, c1, Cached());
      }
    }

    method WriteAsync(data: seq<byte>, offset: nat) returns (r: Result<nat>)
      requires Valid() && (writer ==> Fits(Cached().BlockSize(), offset + |data|))
      requires !writer && simple.backing.canWrite ==> offset <= simple.contentSize
      modifies Footprint()
      ensures (!simple.backing.canWrite || !old(isPositionValid))
                ==> r == Err(InvalidArgument) && Valid() && Cached() == old(Cached()) && content == old(content)
      ensures (!writer && simple.backing.canWrite && old(isPositionValid))
                ==> WroteExisting(old(Cached()), old(content), offset, data, r, Cached()) && (r.Ok? ==> Sound())
      ensures (writer && CanWriteAt(old(Cached()), |old(content)|, offset, |data|))
                ==> r.Ok? && Valid() && content == ArrayWrite(old(content), offset, data)
      ensures writer ==> (r.Ok? <==> WriteReaches(old(Cached()), old(content), offset, |data|))
      ensures writer && r.Ok? ==> r.value == |data| && Sound() && SameContainer(old(Cached()), Cached())
      ensures (writer && offset <= |old(content)| && WritesBack(old(Cached()), old(content), offset, |data|))
                ==> r.Ok? && Valid() && content == ArrayWrite(old(content), offset, data)
      ensures (writer && r.Ok? && WriteKeeps(old(Cached()), old(content), offset, |data|))
                ==> && Valid() && position == offset + |data|
                    && content == ArrayWrite(Base(old(Cached()), old(content), offset, |data|), offset, data)
                    && Cached().start == TouchedLast(Cached().BlockSize(), old(Cached()).start,
                                                     Min(offset, |old(content)|), offset + |data|)
                    && (data == [] && offset <= |old(content)| ==> Cached() == old(Cached()))
      ensures (writer && r.Ok? && !WriteKeeps(old(Cached()), old(content), offset, |data|))
                ==> SizeInner() == Max(Recovered(old(Cached()).BlockSize(), old(content)), offset + |data|)
                    < |old(content)|
    {
      hide Denotes, CanRun, CanWriteAt, Reloads, Recovered, WroteExisting;
      r := WriteInternalAsync(data, offset);
    }

    /** Sets the size of a writable stream. */
    method Size(value: nat) returns (r: Result<()>)
      requires Valid() && (writer || !simple.backing.canWrite)
      requires writer ==> Fits(Cached().BlockSize(), value)
      modifies Footprint()
      ensures !writer ==> r == Err(InvalidArgument) && Valid() && Cached() == old(Cached()) && content == old(content)
      ensures writer ==> (r.Ok? <==> value == |old(content)| || SizeReaches(old(Cached()), old(content), value))
      ensures writer && CutBlocks(old(Cached()), old(content), value) ==> r == Err(Blocked)
      ensures r.Ok? ==> Valid() && SameContainer(old(Cached()), Cached())
      ensures r.Ok? && value <= |old(content)| ==> content == CutContent(old(Cached()), old(content), value)
      ensures (r.Ok? && value > |old(content)|)
                ==> && content == ZeroExtend(Base(old(Cached()), old(content), value, 0), value)
                    && Cached().start == (value - 1) / Cached().BlockSize() * Cached().BlockSize()
      ensures (r.Ok? && value < |old(content)|)
                ==> simple.contentSize == value && Cached().start == CutStart(Cached().BlockSize(), value)
      ensures value == |old(content)| ==> Cached() == old(Cached())
      ensures (r.Ok? && value != |old(content)|)
                ==> position == Min(old(position), value) && CanMove(Cached(), value, value)
    {
      hide SameContainer, Denotes, Reloads;
      if !simple.backing.canWrite {
        SameContainerReflexive(Cached());
        return Err(InvalidArgument);
      }
      r := SetSizeInner(value);
    }

    /**
     Writes the cached block out; a writer's backing stream then holds exactly the finished ciphertext, whose every
     block CipherFormat tells. On a stream that was only read this can write over the ciphertext.
     */
    method FlushAsync() returns (r: Result<()>)
      requires Valid() && (writer || simple.backing.canWrite)
      modifies Footprint()
      ensures writer ==> Valid()
      ensures content == old(content) && position == old(position)
      ensures writer ==> (r.Ok? <==> CanFlush(simple.provider, |content|))
      ensures writer && r.Ok? ==> Region() == Whole(simple.provider, content) && simple.contentSize == |content|
      ensures writer && r.Ok? ==> Enciphered(simple.provider, content, Region())
      ensures writer && r.Ok? ==> Cached().start == old(Cached()).start
      ensures writer || r.Ok? ==> SameContainer(old(Cached()), Cached())
      ensures !writer ==> (r.Ok? <==> !(simple.provider.mode.Cbc512NoPadding? && old(Cached()).size == 0))
      ensures !writer && r.Ok? ==> Sound() && (Region() == old(Region()) <==> FlushKeeps(old(Cached()), content))
    {
      hide Denotes, SameContainer, CanFlush, Cache.Flush, FlushKeeps, Enciphered;
      if writer {
        FlushRound(Cached(), content);
        if CanFlush(simple.provider, |content|) {
          FlushFormat(simple.provider, content);
        }
        SameContainerReflexive(Cached());
      } else {
        FlushOutcome(Cached(), content);
      }
      r := cachedBlock.Flush();
    }
  }
}
