/**
 Printing and reading the header on a stream, creating a protected file and opening one, and the way from
 written bytes back to read bytes.
 */
module PfileStreams {
  import opened Backing
  import opened BlockCipher
  import opened Bytes
  import opened Wrappers
  import opened Providers
  import opened CacheModel
  import opened CacheTheory
  import opened CipherFormat
  import opened LoopTheory
  import opened ReloadTheory
  import opened RunTheory
  import opened ProtectedStream
  import opened Pfile

  // ---------------------------------------------------------------- writer

  /** Two writes in a row are one. */
  lemma WritesJoin(s: seq<byte>, at: nat, a: seq<byte>, b: seq<byte>)
    ensures ArrayWrite(ArrayWrite(s, at, a), at + |a|, b) == ArrayWrite(s, at, a + b)
  {
    var c := ZeroExtend(s, at);
    assert (a + b)[..|a|] == a && (a + b)[|a|..] == b;
    SpliceJoins(c, at, a + b, |a|);
  }

  /** One more write in a row that started at `at`. */
  method WriteNext(writer: BackingStream, part: seq<byte>, ghost from: seq<byte>, ghost at: nat, ghost done: seq<byte>)
    requires writer.bytes == ArrayWrite(from, at, done) && writer.position == at + |done|
    modifies writer
    ensures writer.bytes == ArrayWrite(from, at, done + part) && writer.position == at + |done + part|
  {
    WritesJoin(from, at, done, part);
    writer.Write(part);
  }

  /** The preamble, the version and the redirection text; yields how many bytes they take. */
  method WriteOpening(writer: BackingStream, h: Header) returns (position: nat)
    requires |h.redirect| < TWO_32 - 18
    modifies writer
    ensures writer.bytes == ArrayWrite(old(writer.bytes), old(writer.position), Opening(h) + h.redirect)
    ensures writer.position == old(writer.position) + position
    ensures position == |Opening(h) + h.redirect|
  {
    hide LittleEndian, ArrayWrite;
    ghost var from, at := writer.bytes, writer.position;
    var p0, p1, p2, p3 := PREAMBLE, U32(h.major), U32(h.minor), U32(|h.redirect|);
    writer.Write(p0);
    WriteNext(writer, p1, from, at, p0);
    WriteNext(writer, p2, from, at, p0 + p1);
    WriteNext(writer, p3, from, at, p0 + p1 + p2);
    WriteNext(writer, h.redirect, from, at, p0 + p1 + p2 + p3);
    position := |p0| + |p1| + |p2| + |p3| + |h.redirect|;
  }

  /** The table, with every offset computed in 32 bits from where the header stands. */
  method WriteHeader(writer: BackingStream, h: Header, headerOffset: nat)
    requires headerOffset == 18 + |h.redirect|
    modifies writer
    ensures writer.bytes == ArrayWrite(old(writer.bytes), old(writer.position), Table1(h) + Table2(h) + Table3(h))
    ensures writer.position == old(writer.position) + |Table1(h) + Table2(h) + Table3(h)|
  {
    hide ArrayWrite, LittleEndian, U32;
    ghost var from, at := writer.bytes, writer.position;
    var headerSize := TABLE_SIZE;
    var extensionOffset := (headerOffset + headerSize) % TWO_32;
    var extensionLength := |h.extension| % TWO_32;
    var plOffset := (extensionOffset + extensionLength) % TWO_32;
    var plLength := |h.license| % TWO_32;
    var metadataOffset := (plOffset + plLength) % TWO_32;
    var metadataLength := |h.metadata| % TWO_32;
    var contentOffset := (metadataOffset + metadataLength) % TWO_32;
    var t1 := U32(headerSize) + U32(extensionOffset) + U32(extensionLength);
    var t2 := U32(plOffset) + U32(plLength) + U32(contentOffset);
    var t3 := LittleEndian(h.originalFileSize % TWO_64, 8) + U32(metadataOffset) + U32(metadataLength);
    OffsetsWrap(h);
    writer.Write(t1);
    WriteNext(writer, t2, from, at, t1);
    WriteNext(writer, t3, from, at, t1 + t2);
  }

  lemma Wrap(x: nat, y: nat)
    ensures U32(x % TWO_32) == U32(x)
    ensures (x % TWO_32 + y % TWO_32) % TWO_32 == (x + y) % TWO_32
  {
    hide LittleEndian;
    var q := x / TWO_32 + y / TWO_32;
    assert x + y == TWO_32 * q + (x % TWO_32 + y % TWO_32);
    WrapMultiple(q, x % TWO_32 + y % TWO_32);
  }

  lemma WrapMultiple(q: nat, z: nat)
    ensures (0x1_0000_0000 * q + z) % 0x1_0000_0000 == z % 0x1_0000_0000
  {
  }

  /** Offsets summed in 32 bits are the offsets cut to 32 bits. */
  lemma OffsetsWrap(h: Header)
    ensures var e := (18 + |h.redirect| + TABLE_SIZE) % TWO_32;
            var l := (e + |h.extension| % TWO_32) % TWO_32;
            var m := (l + |h.license| % TWO_32) % TWO_32;
            var c := (m + |h.metadata| % TWO_32) % TWO_32;
            && Table1(h) == U32(TABLE_SIZE) + U32(e) + U32(|h.extension| % TWO_32)
            && Table2(h) == U32(l) + U32(|h.license| % TWO_32) + U32(c)
            && Table3(h) == LittleEndian(h.originalFileSize % TWO_64, 8) + U32(m) + U32(|h.metadata| % TWO_32)
  {
    hide U32, LittleEndian;
    var o := OffsetsOf(h);
    Wrap(o.extension, |h.extension|);
    Wrap(o.license, |h.license|);
    Wrap(o.metadata, |h.metadata|);
    Wrap(o.content, 0);
    Wrap(|h.extension|, 0);
    Wrap(|h.license|, 0);
    Wrap(|h.metadata|, 0);
  }

  /** Prints the whole header where the stream stands. */
  method Write(stream: BackingStream, h: Header) returns (size: nat)
    requires |h.redirect| < TWO_32 - 18
    modifies stream
    ensures stream.bytes == ArrayWrite(old(stream.bytes), old(stream.position), HeaderBytes(h))
    ensures stream.position == old(stream.position) + |HeaderBytes(h)|
    ensures size == |stream.bytes|
  {
    hide ArrayWrite, Opening, Table1, Table2, Table3;
    ghost var from, at := stream.bytes, stream.position;
    ghost var a, b := Opening(h) + h.redirect, Table1(h) + Table2(h) + Table3(h);
    var position := WriteOpening(stream, h);
    OpeningLength(h);
    WritesJoin(from, at, a, b);
    WriteHeader(stream, h, position);
    WriteNext(stream, h.extension, from, at, a + b);
    WriteNext(stream, h.license, from, at, a + b + h.extension);
    WriteNext(stream, h.metadata, from, at, a + b + h.extension + h.license);
    assert a + b + h.extension + h.license + h.metadata == HeaderBytes(h);
    size := |stream.bytes|;
  }

  lemma OpeningLength(h: Header)
    ensures |Opening(h) + h.redirect| == 18 + |h.redirect|
  {
  }

  // ---------------------------------------------------------------- reader

  /** The stream stands at `pos`, or both lie behind the last byte. */
  ghost predicate StandsAt(stream: BackingStream, pos: nat)
    reads stream
  {
    stream.position == pos || (stream.position >= |stream.bytes| && pos >= |stream.bytes|)
  }

  /** A fixed-width number; bytes behind the end of the stream count as zero. */
  method ReadNumber(stream: BackingStream, width: nat, ghost pos: nat) returns (n: nat)
    requires StandsAt(stream, pos)
    modifies stream`position
    ensures StandsAt(stream, pos + width)
    ensures n == Number(stream.bytes, pos, width)
  {
    var got := stream.Read(width);
    assert got == ArrayRead(stream.bytes, pos, width);
    n := FromLittleEndian(got + Zeros(width - |got|));
  }

  method ReadBlock(stream: BackingStream, length: nat, ghost pos: nat) returns (r: Result<seq<byte>>)
    requires StandsAt(stream, pos)
    modifies stream`position
    ensures r == ReadBytes(stream.bytes, pos, length)
    ensures r.Ok? ==> StandsAt(stream, pos + length)
  {
    if length == 0 {
      return Ok([]);
    }
    if length > |stream.bytes| {
      return Err(BadArguments);
    }
    var got := stream.Read(length);
    assert got == ArrayRead(stream.bytes, pos, length);
    r := Ok(got + Zeros(length - |got|));
  }

  method ReadAtOffset(stream: BackingStream, offset: nat, length: nat) returns (r: Result<seq<byte>>)
    modifies stream`position
    ensures r == ReadBytes(stream.bytes, offset, length)
  {
    stream.Seek(offset);
    r := ReadBlock(stream, length, offset);
  }

  method ReadTableNumbers(stream: BackingStream, full: bool, ghost pos: nat) returns (t: Table)
    requires StandsAt(stream, pos)
    modifies stream`position
    ensures t == ReadTable(stream.bytes, pos, full)
  {
    hide Number, StandsAt;
    var headerSize := ReadNumber(stream, 4, pos);
    var extensionOffset := ReadNumber(stream, 4, pos + 4);
    var extensionLength := ReadNumber(stream, 4, pos + 8);
    var plOffset := ReadNumber(stream, 4, pos + 12);
    var plLength := ReadNumber(stream, 4, pos + 16);
    var contentOffset := ReadNumber(stream, 4, pos + 20);
    var originalFileSize, metadataOffset, metadataLength := 0, 0, 0;
    if full {
      originalFileSize := ReadNumber(stream, 8, pos + 24);
      metadataOffset := ReadNumber(stream, 4, pos + 32);
      metadataLength := ReadNumber(stream, 4, pos + 36);
    }
    t := Table(extensionOffset, extensionLength, plOffset, plLength, contentOffset,
               originalFileSize, metadataOffset, metadataLength);
  }

  /** Reads the table and the blocks it points to. */
  method ReadHeader(stream: BackingStream, major: nat, minor: nat, redirect: seq<byte>, ghost pos: nat)
      returns (r: Result<Header>)
    requires StandsAt(stream, pos)
    modifies stream`position
    ensures var t := ReadTable(stream.bytes, pos, HasMetadata(major, minor));
            r == ParseBlocks(stream.bytes, t, major, minor, redirect)
  {
    hide ReadTable, ReadBytes, StandsAt;
    var full := (major == 2 && minor >= 1) || major > 2;
    var t := ReadTableNumbers(stream, full, pos);
    var endOfHeader := (t.plOffset + t.plLength) % TWO_32;
    if full {
      endOfHeader := (t.metadataOffset + t.metadataLength) % TWO_32;
    }
    if t.contentOffset < endOfHeader {
      return Err(BadArguments);
    }
    if t.extensionOffset >= |stream.bytes| {
      return Err(BadArguments);
    }
    var extension := ReadAtOffset(stream, t.extensionOffset, t.extensionLength);
    if extension.Err? {
      return Err(extension.error);
    }
    var license := ReadAtOffset(stream, t.plOffset, t.plLength);
    if license.Err? {
      return Err(license.error);
    }
    var metadata: Result<seq<byte>> := Ok([]);
    if full {
      metadata := ReadAtOffset(stream, t.metadataOffset, t.metadataLength);
      if metadata.Err? {
        return Err(metadata.error);
      }
    }
    return Ok(Header(license.value, extension.value, t.contentOffset, t.originalFileSize, metadata.value,
                     major, minor, redirect));
  }

  /** Reads the header of the file that starts where the stream stands. */
  method Read(stream: BackingStream) returns (r: Result<Header>)
    modifies stream`position
    ensures r == Parse(stream.bytes, old(stream.position))
  {
    hide Number, ReadBytes, ReadTable, ParseBlocks;
    ghost var pos := stream.position;
    var preamble := ReadBlock(stream, 6, pos);
    if preamble.Err? {
      return Err(preamble.error);
    }
    if preamble.value != PREAMBLE {
      return Err(NotPFile);
    }
    var major := ReadNumber(stream, 4, pos + 6);
    var minor := ReadNumber(stream, 4, pos + 10);
    if major >= MAX_VALID_VERSION || minor >= MAX_VALID_VERSION {
      return Err(NotPFile);
    }
    if major > MAX_MAJOR_FOR_READING || major < MIN_MAJOR_FOR_READING {
      return Err(NotSupportedVersion);
    }
    var redirectLength := ReadNumber(stream, 4, pos + 14);
    var redirect := ReadBlock(stream, redirectLength, pos + 18);
    if redirect.Err? {
      return Err(redirect.error);
    }
    r := ReadHeader(stream, major, minor, redirect.value, pos + 18 + redirectLength);
  }

  // ---------------------------------------------------------------- creating a protected file

  const REDIRECT_TEXT: string :=
    "\r\n\r\n\r\n" +
    "This file uses Microsoft Information Protection solutions.\r\n" +
    "Open it using an application that supports protected files.\r\n\r\n" +
    "You can download Microsoft's protected file viewer from: http://go.microsoft.com/fwlink/?LinkId=280381 \r\n" +
    "Learn more about Information Protection solutions at http://www.microsoft.com/rms \r\n\r\n" +
    "Do not change this file in any way -- doing so will result in data loss.\r\n\r\n"

  /** The characters of a text as bytes. */
  function TextBytes(text: string): (r: seq<byte>)
    ensures |r| == |text|
  {
    seq(|text|, i requires 0 <= i < |text| => text[i] as int % 256)
  }

  /** ".pfile", the extension of files that have none. */
  const DEFAULT_EXTENSION: seq<byte> := PREAMBLE

  function EffectiveExtension(extension: seq<byte>): seq<byte> {
    if extension == [] then DEFAULT_EXTENSION else extension
  }

  /** The header of a new file; its content start is the sum that the original writes with the literal 454. */
  function NewHeader(license: seq<byte>, extension: seq<byte>): Header {
    var ext := EffectiveExtension(extension);
    Header(license, ext, (|ext| + |license| + 0 + 454) % TWO_32, TWO_64 - 1, [], 3, 0, TextBytes(REDIRECT_TEXT))
  }

  /** The literal agrees with the offsets that the writer computes and with the length of what it writes. */
  lemma ContentStartExact(license: seq<byte>, extension: seq<byte>)
    requires |EffectiveExtension(extension)| + |license| + 454 < TWO_32
    ensures var h := NewHeader(license, extension);
            h.contentStart == OffsetsOf(h).content == |HeaderBytes(h)| && Fits32(h)
  {
    var h := NewHeader(license, extension);
    RedirectLength();
    HeaderLength(h);
    assert OffsetsOf(h).content == 18 + 396 + 40 + |h.extension| + |license|;
  }

  lemma RedirectLength()
    ensures |REDIRECT_TEXT| == 396
  {
  }

  /** Files up to major version 2 were always written in the 4096-byte mode when the policy says electronic codebook. */
  const MAX_MAJOR_CBC4K_IS_FORCED: nat := 2

  ghost function EffectiveProvider(p: Provider, major: nat): Provider {
    if p.mode.Ecb? && major <= MAX_MAJOR_CBC4K_IS_FORCED then p.(mode := Cbc4k) else p
  }

  /** A policy, as far as streams use it. */
  class Policy {
    var provider: Provider

    constructor (provider: Provider)
      ensures this.provider == provider
    {
      this.provider := provider;
    }

    method ReinitializeCryptoProvider(mode: Mode)
      modifies this
      ensures provider == old(provider).(mode := mode)
    {
      provider := provider.(mode := mode);
    }
  }

  /**
   Opens the content behind a header; refuses one that would start behind the end of the stream. When the file is old
   the policy itself changes its mode, and keeps it.
   */
  method CreateProtectedFileStream(policy: Policy, stream: BackingStream, h: Header,
      ghost writer: bool, ghost content: seq<byte>)
    returns (r: Result<BlockBasedProtectedStream>)
    requires |stream.bytes| < TWO_64
    modifies stream`position, policy
    ensures policy.provider == EffectiveProvider(old(policy.provider), h.major)
    ensures r.Ok? <==> h.contentStart <= |stream.bytes|
    ensures var p := old(policy.provider);
            r.Ok? ==>
              && fresh(r.value.Footprint() - {stream}) && r.value.Sound()
              && (OpensBehind(p, h, stream.bytes, stream.canWrite, writer, content) ==> r.value.Valid())
              && r.value.writer == writer && r.value.content == content
              && r.value.simple.backing == stream && r.value.simple.contentStart == h.contentStart
              && r.value.simple.provider == EffectiveProvider(p, h.major)
              && r.value.simple.provider.mode == (if p.mode.Ecb? && h.major <= 2 then Cbc4k else p.mode)
              && r.value.Cached().BlockSize() == (if p.mode.Cbc512NoPadding? then 512 else 4096)
              && r.value.simple.contentSize == |stream.bytes| - h.contentStart
              && r.value.position == 0 && r.value.isPositionValid && r.value.Cached().start == NO_BLOCK
              && !r.value.Cached().pending
  {
    hide Provider.Cipher;
    if policy.provider.mode == Ecb && h.major <= MAX_MAJOR_CBC4K_IS_FORCED {
      policy.ReinitializeCryptoProvider(Cbc4k);
    }
    var provider := policy.provider;
    var blockSize := if provider.BlockSize() == 512 then 512 else 4096;
    if blockSize % provider.BlockSize() != 0 {
      assert false;
    }
    var contentSize := (|stream.bytes| - h.contentStart) % TWO_64;
    var created := SimpleProtectedStream.Create(provider, stream, h.contentStart, contentSize);
    if created.Err? {
      return Err(created.error);
    }
    var s := new BlockBasedProtectedStream(created.value, writer, content);
    return Ok(s);
  }

  /** The content behind the header is still empty, or finished ciphertext. */
  ghost predicate OpensBehind(p: Provider, h: Header, bytes: seq<byte>, canWrite: bool, writer: bool,
      content: seq<byte>)
    requires h.contentStart <= |bytes|
  {
    var q, region := EffectiveProvider(p, h.major), bytes[h.contentStart..];
    if writer then canWrite && content == [] && region == []
    else q.Legal(|content|) && region == Whole(q, content) && Fits(q.CacheBlock(), |region|)
  }

  /** The bytes of a stream once the header of a new file is printed where it stands. */
  function WithHeader(bytes: seq<byte>, position: nat, license: seq<byte>, extension: seq<byte>): (r: seq<byte>)
    requires |EffectiveExtension(extension)| + |license| + 454 < TWO_32
    ensures NewHeader(license, extension).contentStart <= |r|
  {
    ContentStartExact(license, extension);
    ArrayWrite(bytes, position, HeaderBytes(NewHeader(license, extension)))
  }

  /**
   Writes the header of a new file where the stream stands and opens the content behind it, which is empty unless the
   stream was longer than the header.
   */
  method Create(policy: Policy, license: seq<byte>, stream: BackingStream, extension: seq<byte>,
      ghost writer: bool, ghost content: seq<byte>)
    returns (s: BlockBasedProtectedStream)
    requires stream.canWrite
    requires |EffectiveExtension(extension)| + |license| + 454 < TWO_32
    requires |WithHeader(stream.bytes, stream.position, license, extension)| < TWO_64
    modifies stream, policy
    ensures policy.provider == old(policy.provider)
    ensures fresh(s.Footprint() - {stream}) && s.Sound()
    ensures stream.bytes == WithHeader(old(stream.bytes), old(stream.position), license, extension)
    ensures var h := NewHeader(license, extension);
            OpensBehind(policy.provider, h, stream.bytes, true, writer, content) ==> s.Valid()
    ensures s.writer == writer && s.content == content && s.position == 0 && s.isPositionValid
    ensures s.simple.backing == stream && s.simple.provider == policy.provider
    ensures s.simple.contentStart == NewHeader(license, extension).contentStart
    ensures s.Cached().start == NO_BLOCK && !s.Cached().pending
  {
    hide HeaderBytes, NewHeader, OffsetsOf, ArrayWrite, OpensBehind;
    var h := NewHeader(license, extension);
    ContentStartExact(license, extension);
    NewHeaderFields(license, extension);
    var size := Write(stream, h);
    var r := CreateProtectedFileStream(policy, stream, h, writer, content);
    s := r.value;
  }

  /** On an empty stream nothing stands behind the header. */
  lemma NewFile(license: seq<byte>, extension: seq<byte>)
    requires |EffectiveExtension(extension)| + |license| + 454 < TWO_32
    ensures var h := NewHeader(license, extension);
            && WithHeader([], 0, license, extension) == HeaderBytes(h) && |HeaderBytes(h)| == h.contentStart < TWO_64
            && h.major == 3 && forall p :: OpensBehind(p, h, HeaderBytes(h), true, true, [])
  {
    hide HeaderBytes, NewHeader, OffsetsOf;
    ContentStartExact(license, extension);
    NewHeaderFields(license, extension);
    WriteIntoNothing(HeaderBytes(NewHeader(license, extension)));
  }

  lemma NewHeaderFields(license: seq<byte>, extension: seq<byte>)
    ensures var h := NewHeader(license, extension);
            && h.major == 3 && h.minor == 0 && |h.redirect| == 396
            && h.metadata == [] && h.originalFileSize == 0xFFFF_FFFF_FFFF_FFFF
            && h.license == license && h.extension == EffectiveExtension(extension)
  {
    RedirectLength();
  }

  lemma WriteIntoNothing(d: seq<byte>)
    ensures ArrayWrite([], 0, d) == d
  {
  }

  // ---------------------------------------------------------------- end to end

  function Concat(pieces: seq<seq<byte>>): seq<byte> {
    if pieces == [] then [] else pieces[0] + Concat(pieces[1..])
  }

  lemma {:induction false} ConcatSplits(pieces: seq<seq<byte>>, i: nat)
    requires i < |pieces|
    ensures Concat(pieces[..i + 1]) == Concat(pieces[..i]) + pieces[i]
  {
    if i == 0 {
      assert pieces[..1] == [pieces[0]];
      assert Concat(pieces[..1]) == pieces[0] + Concat([]);
    } else {
      ConcatSplits(pieces[1..], i - 1);
      assert pieces[..i + 1][1..] == pieces[1..][..i] && pieces[..i][1..] == pieces[1..][..i - 1];
    }
  }

  lemma {:induction false} ConcatLength(pieces: seq<seq<byte>>, i: nat)
    requires i <= |pieces|
    ensures |Concat(pieces[..i])| <= |Concat(pieces)|
  {
    if i > 0 {
      ConcatLength(pieces[1..], i - 1);
      assert pieces[..i][1..] == pieces[1..][..i - 1];
    }
  }

  /** Appends the pieces one after another at the position where the stream stands. */
  method WriteSequentially(s: BlockBasedProtectedStream, pieces: seq<seq<byte>>)
    requires s.Valid() && s.writer && s.content == [] && s.position == 0
    requires s.Cached().start == NO_BLOCK && !s.Cached().pending
    requires Fits(s.Cached().BlockSize(), |Concat(pieces)|)
    modifies s.Footprint()
    ensures s.Valid() && s.content == Concat(pieces)
    ensures SameContainer(old(s.Cached()), s.Cached())
  {
    hide Denotes, SameContainer, ArrayWrite, CanMove, CanRun, Cache.GetSizeInternal, CachedBlock.GetSizeInternal,
      Base, Recovered, Reloads, WriteReaches;
    ghost var c0 := s.Cached();
    SameContainerReflexive(c0);
    assert CanMove(c0, 0, 0) by { UnloadedMoves(c0); }
    for i := 0 to |pieces|
      invariant s.Valid() && s.content == Concat(pieces[..i]) && s.position == |s.content|
      invariant CanMove(s.Cached(), |s.content|, |s.content|)
      invariant SameContainer(c0, s.Cached())
    {
      ghost var c1, before := s.Cached(), s.content;
      ConcatSplits(pieces, i);
      ConcatLength(pieces, i + 1);
      TailRuns(c1, |before|, |before| + |pieces[i]|);
      var written := s.WriteAsync(pieces[i], s.position);
      assert s.content == before + pieces[i] by { AppendIsConcat(before, pieces[i]); }
      SameContainerTransitive(c0, c1, s.Cached());
      if pieces[i] != [] {
        TailReady(s.Cached(), s.content);
      }
    }
    assert pieces[..|pieces|] == pieces;
  }

  lemma UnloadedMoves(c: Cache)
    requires c.start == NO_BLOCK && !c.pending
    ensures CanMove(c, 0, 0)
  {
  }

  lemma AppendIsConcat(c: seq<byte>, d: seq<byte>)
    ensures ArrayWrite(c, |c|, d) == c + d
  {
  }

  /** A written file parses back to its header, and its content deciphers to what was written. */
  lemma FileBytes(p: Provider, license: seq<byte>, extension: seq<byte>, plain: seq<byte>)
    requires |EffectiveExtension(extension)| + |license| + 454 < TWO_32
    requires p.Legal(|plain|)
    ensures var h := NewHeader(license, extension);
            && Parse(HeaderBytes(h) + Whole(p, plain), 0) == Ok(h)
            && h.license == license && h.extension == EffectiveExtension(extension) && h.major == 3
            && h.contentStart == |HeaderBytes(h)|
            && p.Decrypt(Whole(p, plain), 0, true) == Ok(plain)
  {
    hide HeaderBytes, OffsetsOf, Parse, Provider.Cipher, Provider.Decipher, NewHeader;
    var h := NewHeader(license, extension);
    ContentStartExact(license, extension);
    NewHeaderFields(license, extension);
    Pfile.RoundTrip(h, Whole(p, plain));
    BehindTable(h);
    Providers.RoundTrip(p, plain, 0, true);
  }

  lemma BehindTable(h: Header)
    requires h.extension != []
    ensures OffsetsOf(h).extension < OffsetsOf(h).content
  {
  }

  /** Flushes a stream behind a header; the file is then the header and the finished ciphertext, block by block. */
  method FlushFile(s: BlockBasedProtectedStream, ghost header: seq<byte>) returns (file: seq<byte>)
    requires s.Valid() && s.writer && CanFlush(s.simple.provider, |s.content|)
    requires s.simple.backing.bytes[..s.simple.contentStart] == header
    modifies s.Footprint()
    ensures file == header + Whole(s.simple.provider, s.content) && s.content == old(s.content)
    ensures Enciphered(s.simple.provider, s.content, file[|header|..])
  {
    hide Enciphered, Provider.Cipher, SameContainer, Denotes, CanFlush, Whole;
    ghost var c0, start := s.Cached(), s.simple.contentStart;
    var flushed := s.FlushAsync();
    file := s.simple.backing.bytes;
    assert file[..start] == header by { FrontKept(c0, s.Cached()); }
    assert file[start..] == Whole(s.simple.provider, s.content);
    assert file == file[..start] + file[start..];
  }

  /** Creates a file on an empty stream, writes the pieces and flushes. */
  method WriteFile(policy: Policy, license: seq<byte>, extension: seq<byte>, pieces: seq<seq<byte>>)
    returns (file: seq<byte>)
    requires |EffectiveExtension(extension)| + |license| + 454 < TWO_32
    requires var p := policy.provider;
             CanFlush(p, |Concat(pieces)|) && Fits(p.CacheBlock(), |Concat(pieces)|)
    modifies policy
    ensures policy.provider == old(policy.provider)
    ensures file == HeaderBytes(NewHeader(license, extension)) + Whole(policy.provider, Concat(pieces))
    ensures Enciphered(policy.provider, Concat(pieces), file[|HeaderBytes(NewHeader(license, extension))|..])
  {
    hide Enciphered, HeaderBytes, OffsetsOf, NewHeader, Provider.Cipher, SameContainer, Denotes, CanFlush, Fits,
      OpensBehind, WithHeader;
    var stream := new BackingStream([], true);
    NewFile(license, extension);
    var s := Create(policy, license, stream, extension, true, []);
    ghost var c0 := s.Cached();
    WriteSequentially(s, pieces);
    FrontKept(c0, s.Cached());
    file := FlushFile(s, HeaderBytes(NewHeader(license, extension)));
  }

  /** The bytes are the finished ciphertext of `plain`, short enough for block numbers of 32 bits. */
  ghost predicate StandsFor(p: Provider, plain: seq<byte>, bytes: seq<byte>) {
    p.Legal(|plain|) && Fits(p.CacheBlock(), p.CipherSize(|plain|)) && bytes == Whole(p, plain)
  }

  /** If the bytes open as a protected file at all, the content stands for `plain` in the mode that its age asks for. */
  ghost predicate FileHolds(p: Provider, file: seq<byte>, plain: seq<byte>) {
    var h := Parse(file, 0);
    h.Ok? && h.value.contentStart <= |file| ==>
      var content := file[h.value.contentStart..];
      if p.mode.Ecb? && h.value.major == 2 then StandsFor(p.(mode := Cbc4k), plain, content)
      else StandsFor(p, plain, content)
  }

  /** Version 2 files of a codebook policy are chained; every other file is in the mode that its policy says. */
  lemma OldFilesAreChained(p: Provider, file: seq<byte>, plain: seq<byte>, h: Header)
    requires Parse(file, 0) == Ok(h) && h.contentStart <= |file|
    ensures h.major == 2 || h.major == 3
    ensures var content := file[h.contentStart..];
            && (p.mode == Ecb && h.major == 2 ==>
                  (FileHolds(p, file, plain) <==> StandsFor(Provider(Cbc4k, p.key, p.platform), plain, content)))
            && (p.mode == Ecb && h.major == 3 ==>
                  (FileHolds(p, file, plain) <==> StandsFor(Provider(Ecb, p.key, p.platform), plain, content)))
            && (p.mode != Ecb ==> (FileHolds(p, file, plain) <==> StandsFor(p, plain, content)))
  {
    hide Parse, StandsFor;
    ParsedVersion(file, h);
  }

  lemma ParsedVersion(file: seq<byte>, h: Header)
    requires Parse(file, 0) == Ok(h)
    ensures 2 <= h.major <= 3
  {
    hide ReadBytes, Number;
  }

  lemma HoldsOpens(p: Provider, file: seq<byte>, plain: seq<byte>)
    requires FileHolds(p, file, plain) && Parse(file, 0).Ok? && Parse(file, 0).value.contentStart <= |file|
    ensures var h := Parse(file, 0).value;
            && OpensBehind(p, h, file, false, false, plain)
            && |file| - h.contentStart == EffectiveProvider(p, h.major).CipherSize(|plain|)
  {
    hide Provider.Cipher, Parse;
    ParsedVersion(file, Parse(file, 0).value);
    CipherLength(EffectiveProvider(p, Parse(file, 0).value.major), plain, 0, true);
  }

  /** Opening throws: the header cannot be read although the preamble is right, or it points behind the end. */
  predicate OpenFails(file: seq<byte>) {
    var h := Parse(file, 0);
    if h.Err? then h.error != NotPFile else h.value.contentStart > |file|
  }

  /** How many bytes the content of a file takes: padding is there when the mode or the age of the file asks for it. */
  function CiphertextSize(mode: Mode, major: nat, n: nat): nat {
    if mode == Cbc4k || (mode == Ecb && major == 2) then (n / 16 + 1) * 16 else n
  }

  lemma SizeOfEffective(p: Provider, major: nat, n: nat)
    requires 2 <= major <= 3
    ensures EffectiveProvider(p, major).CipherSize(n) == CiphertextSize(p.mode, major, n)
  {
  }

  /** Opens a file for reading. Bytes that are no protected file give no stream. */
  method Acquire(policy: Policy, stream: BackingStream, ghost plain: seq<byte>)
    returns (r: Result<Option<(Header, BlockBasedProtectedStream)>>)
    requires FileHolds(policy.provider, stream.bytes, plain) && |stream.bytes| < TWO_64
    requires stream.position == 0 && !stream.canWrite
    modifies stream`position, policy
    ensures var h, p := Parse(stream.bytes, 0), old(policy.provider);
            policy.provider == if h.Ok? then EffectiveProvider(p, h.value.major) else p
    ensures r.Err? <==> OpenFails(stream.bytes)
    ensures r.Ok? ==> (r.value.None? <==> Parse(stream.bytes, 0) == Err(NotPFile))
    ensures r.Ok? && r.value.Some? ==>
              var (h, s) := r.value.value;
              var p := old(policy.provider);
              && Parse(stream.bytes, 0) == Ok(h) && fresh(s.Footprint() - {stream})
              && s.Valid() && !s.writer && s.content == plain && s.position == 0 && s.isPositionValid
              && s.simple.contentSize == CiphertextSize(p.mode, h.major, |plain|)
              && s.simple.provider.mode == (if p.mode.Ecb? && h.major == 2 then Cbc4k else p.mode)
              && !s.simple.backing.canWrite
  {
    hide Provider.Cipher, Provider.CipherSize, Denotes, Parse, FileHolds, OpensBehind;
    ghost var p := policy.provider;
    var parsed := Read(stream);
    if parsed.Err? {
      if parsed.error == NotPFile {
        return Ok(None);
      }
      return Err(parsed.error);
    }
    var opening := CreateProtectedFileStream(policy, stream, parsed.value, false, plain);
    if opening.Err? {
      return Err(opening.error);
    }
    HoldsOpens(p, stream.bytes, plain);
    ParsedVersion(stream.bytes, parsed.value);
    SizeOfEffective(p, parsed.value.major, |plain|);
    return Ok(Some((parsed.value, opening.value)));
  }

  /**
   Opens the bytes of a file read-only and reads n bytes at `off`, whatever readable version wrote them. An offset
   behind the ciphertext reads from the start.
   */
  method ReadFile(p: Provider, file: seq<byte>, off: nat, n: nat, ghost plain: seq<byte>)
    returns (r: Result<Option<(Header, seq<byte>)>>)
    requires FileHolds(p, file, plain) && |file| < TWO_64
    ensures r.Err? <==> OpenFails(file)
    ensures r.Ok? ==> (r.value.None? <==> Parse(file, 0) == Err(NotPFile))
    ensures r.Ok? && r.value.Some? ==>
              var (h, data) := r.value.value;
              var size := CiphertextSize(p.mode, h.major, |plain|);
              Parse(file, 0) == Ok(h) && data == ArrayRead(plain, if off <= size then off else 0, n)
  {
    hide Provider.CipherSize, SameContainer, Denotes, Parse, CanReadAt, FileHolds, OpenFails;
    var input := new BackingStream(file, false);
    var policy := new Policy(p);
    var opening := Acquire(policy, input, plain);
    if opening.Err? {
      return Err(opening.error);
    }
    if opening.value.None? {
      return Ok(None);
    }
    var s := opening.value.value.1;
    var read := s.ReadAsync(n, off);
    return Ok(Some((opening.value.value.0, read.value)));
  }

  /** A written file holds what was written. */
  lemma WrittenHolds(p: Provider, license: seq<byte>, extension: seq<byte>, plain: seq<byte>)
    requires |EffectiveExtension(extension)| + |license| + 454 < TWO_32
    requires p.Legal(|plain|) && Fits(p.CacheBlock(), p.CipherSize(|plain|))
    ensures var h, file := NewHeader(license, extension), HeaderBytes(NewHeader(license, extension)) + Whole(p, plain);
            && Parse(file, 0) == Ok(h) && h.contentStart <= |file| < TWO_64 && EffectiveProvider(p, h.major) == p
            && h.license == license && h.extension == EffectiveExtension(extension)
            && FileHolds(p, file, plain)
  {
    hide HeaderBytes, Provider.Cipher, NewHeader, Parse;
    FileBytes(p, license, extension, plain);
    FileFits(p, license, extension, plain);
  }

  /**
   What is written into a new file, in any pieces, is what is read back from it, at any offset; so are the
   license and the extension.
   */
  method EndToEnd(p: Provider, license: seq<byte>, extension: seq<byte>, pieces: seq<seq<byte>>, off: nat, n: nat)
    returns (header: Header, data: seq<byte>)
    requires |EffectiveExtension(extension)| + |license| + 454 < TWO_32
    requires CanFlush(p, |Concat(pieces)|) && Fits(p.CacheBlock(), p.CipherSize(|Concat(pieces)|))
    ensures header.license == license && header.metadata == [] && header.originalFileSize == 0xFFFF_FFFF_FFFF_FFFF
    ensures header.major == 3 && header.minor == 0
    ensures header.extension == if extension == [] then [0x2E, 0x70, 0x66, 0x69, 0x6C, 0x65] else extension
    ensures data == ArrayRead(Concat(pieces), if off <= p.CipherSize(|Concat(pieces)|) then off else 0, n)
  {
    hide HeaderBytes, NewHeader, Provider.Cipher, ArrayRead, CanFlush, Parse, FileHolds;
    ghost var plain, h := Concat(pieces), NewHeader(license, extension);
    FitsPlain(p, |plain|);
    FlushLegal(p, |plain|);
    NewHeaderFields(license, extension);
    WrittenHolds(p, license, extension, plain);
    var policy := new Policy(p);
    var file := WriteFile(policy, license, extension, pieces);
    var r := ReadFile(p, file, off, n, plain);
    header, data := r.value.value.0, r.value.value.1;
  }

  // ---------------------------------------------------------------- a policy that has opened an old file

  /** Two unpadded ciphertexts are equal only for the same content, and a padded one is longer than an unpadded one. */
  lemma ModesDiffer(p: Provider, plain: seq<byte>)
    requires p.mode == Ecb
    ensures var r := Whole(p.(mode := Cbc4k), plain);
            && p.Legal(|EcbDecrypt(p.key, r)|) && Whole(p, EcbDecrypt(p.key, r)) == r
            && |EcbDecrypt(p.key, r)| == (|plain| / 16 + 1) * 16
            && (p.Legal(|plain|) ==> Whole(p, plain) != r)
  {
    hide Cbc4kEncrypt, EcbEncrypt, EcbDecrypt;
    var q := p.(mode := Cbc4k);
    CipherLength(q, plain, 0, true);
    EcbRoundTrip(p.key, Whole(q, plain));
    if p.Legal(|plain|) {
      CipherLength(p, plain, 0, true);
    }
  }

  /**
   A new file that is written under a policy which has opened a file before, read back under the policy as the server
   returns it. It holds what was written exactly when the file opened before was not a version 2 file or the policy does
   not say electronic codebook; if it does, it holds the chained ciphertext taken for codebook blocks.
   */
  lemma WrittenAfterOldFile(p: Provider, major: nat, license: seq<byte>, extension: seq<byte>, plain: seq<byte>)
    requires |EffectiveExtension(extension)| + |license| + 454 < TWO_32 && major >= 2
    requires Fits(p.CacheBlock(), |plain| + 16) && EffectiveProvider(p, major).Legal(|plain|)
    ensures var file := HeaderBytes(NewHeader(license, extension)) + Whole(EffectiveProvider(p, major), plain);
            && (FileHolds(p, file, plain) <==> !(p.mode == Ecb && major == 2))
            && (p.mode == Ecb && major == 2 ==> FileHolds(p, file, EcbDecrypt(p.key, Whole(p.(mode := Cbc4k), plain))))
  {
    hide HeaderBytes, Provider.Cipher, Provider.Decipher, Whole, NewHeader, Parse, EcbDecrypt;
    var q := EffectiveProvider(p, major);
    var h := NewHeader(license, extension);
    FileBytes(q, license, extension, plain);
    assert (HeaderBytes(h) + Whole(q, plain))[h.contentStart..] == Whole(q, plain);
    if p.mode == Ecb && major == 2 {
      ModesDiffer(p, plain);
    } else {
      SizeBounds(p, |plain|);
    }
  }

  lemma SizeBounds(p: Provider, n: nat)
    ensures p.CipherSize(n) <= n + 16
  {
  }

  /** Opens a file and then writes a new one under the same policy object. */
  method OpenThenWrite(policy: Policy, file: seq<byte>, license: seq<byte>, extension: seq<byte>,
      pieces: seq<seq<byte>>, ghost plain: seq<byte>)
    returns (written: Result<seq<byte>>)
    requires FileHolds(policy.provider, file, plain) && |file| < TWO_64
    requires |EffectiveExtension(extension)| + |license| + 454 < TWO_32
    requires forall major | 2 <= major <= 3 ::
               var q := EffectiveProvider(policy.provider, major);
               CanFlush(q, |Concat(pieces)|) && Fits(q.CacheBlock(), |Concat(pieces)|)
    modifies policy
    ensures written.Ok? <==> Parse(file, 0).Ok? && Parse(file, 0).value.contentStart <= |file|
    ensures written.Ok? ==>
              var q := EffectiveProvider(old(policy.provider), Parse(file, 0).value.major);
              written.value == HeaderBytes(NewHeader(license, extension)) + Whole(q, Concat(pieces))
  {
    hide HeaderBytes, NewHeader, Provider.Cipher, CanFlush, Parse, FileHolds, Fits;
    var input := new BackingStream(file, false);
    var opening := Acquire(policy, input, plain);
    if opening.Err? {
      return Err(opening.error);
    }
    if opening.value.None? {
      return Err(NotPFile);
    }
    ParsedVersion(file, opening.value.value.0);
    var bytes := WriteFile(policy, license, extension, pieces);
    return Ok(bytes);
  }

  lemma FileFits(p: Provider, license: seq<byte>, extension: seq<byte>, plain: seq<byte>)
    requires |EffectiveExtension(extension)| + |license| + 454 < TWO_32
    requires p.Legal(|plain|) && Fits(p.CacheBlock(), p.CipherSize(|plain|))
    ensures |HeaderBytes(NewHeader(license, extension)) + Whole(p, plain)| < TWO_64
  {
    hide HeaderBytes, Provider.Cipher;
    ContentStartExact(license, extension);
    CipherLength(p, plain, 0, true);
  }

  lemma FitsPlain(p: Provider, n: nat)
    requires Fits(p.CacheBlock(), p.CipherSize(n))
    ensures Fits(p.CacheBlock(), n)
  {
    CipherSizeMonotone(p, n, n);
  }

  lemma FlushLegal(p: Provider, n: nat)
    requires CanFlush(p, n)
    ensures p.Legal(n)
  {
  }

  lemma FrontKept(c: Cache, d: Cache)
    requires SameContainer(c, d) && c.simple.Shape() && d.simple.Shape()
    ensures d.simple.backing[..c.simple.contentStart] == c.simple.backing[..c.simple.contentStart]
  {
  }
}
