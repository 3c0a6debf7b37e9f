/**
 The header of a protected file: the bytes the writer prints, with offsets computed on the way, and what the
 reader makes of any bytes.
 */
module Pfile {
  import opened Bytes
  import opened Wrappers

  const PREAMBLE: seq<byte> := [0x2E, 0x70, 0x66, 0x69, 0x6C, 0x65]
  const MAX_VALID_VERSION: nat := 256
  const MIN_MAJOR_FOR_READING: nat := 2
  const MAX_MAJOR_FOR_READING: nat := 3

  datatype Header = Header(
    license: seq<byte>,
    extension: seq<byte>,
    contentStart: nat,
    originalFileSize: nat,
    metadata: seq<byte>,
    major: nat,
    minor: nat,
    redirect: seq<byte>)

  /** The fixed-width table: 8 fields of four bytes and one of eight. */
  const TABLE_SIZE: nat := 8 * 4 + 8

  function U32(n: nat): seq<byte> {
    LittleEndian(n % TWO_32, 4)
  }

  // ---------------------------------------------------------------- printing

  /** The offsets the writer computes, each cut to 32 bits. */
  datatype Offsets = Offsets(extension: nat, license: nat, metadata: nat, content: nat)

  function OffsetsOf(h: Header): Offsets {
    var e := 18 + |h.redirect| + TABLE_SIZE;
    var l := e + |h.extension|;
    var m := l + |h.license|;
    Offsets(e, l, m, m + |h.metadata|)
  }

  function Opening(h: Header): (r: seq<byte>)
    ensures |r| == 18
  {
    PREAMBLE + U32(h.major) + U32(h.minor) + U32(|h.redirect|)
  }

  function Table1(h: Header): (r: seq<byte>)
    ensures |r| == 12
  {
    U32(TABLE_SIZE) + U32(OffsetsOf(h).extension) + U32(|h.extension|)
  }

  function Table2(h: Header): (r: seq<byte>)
    ensures |r| == 12
  {
    U32(OffsetsOf(h).license) + U32(|h.license|) + U32(OffsetsOf(h).content)
  }

  function Table3(h: Header): (r: seq<byte>)
    ensures |r| == 16
  {
    LittleEndian(h.originalFileSize % TWO_64, 8) + U32(OffsetsOf(h).metadata) + U32(|h.metadata|)
  }

  function HeaderBytes(h: Header): seq<byte> {
    Opening(h) + h.redirect + Table1(h) + Table2(h) + Table3(h) + h.extension + h.license + h.metadata
  }

  /** The header ends where its content offset says. */
  lemma HeaderLength(h: Header)
    ensures |HeaderBytes(h)| == OffsetsOf(h).content
  {
  }

  // ---------------------------------------------------------------- parsing

  /** n bytes at `pos`; bytes past the end read as zeros. */
  function Fetch(s: seq<byte>, pos: nat, n: nat): (r: seq<byte>)
    ensures |r| == n
  {
    var got := ArrayRead(s, pos, n);
    got + Zeros(n - |got|)
  }

  function Number(s: seq<byte>, pos: nat, width: nat): nat {
    FromLittleEndian(Fetch(s, pos, width))
  }

  /** A block of a length that was read from the stream: refused when longer than the whole stream. */
  function ReadBytes(s: seq<byte>, pos: nat, n: nat): Result<seq<byte>> {
    if n == 0 then Ok([]) else if n > |s| then Err(BadArguments) else Ok(Fetch(s, pos, n))
  }

  predicate HasMetadata(major: nat, minor: nat) {
    (major == 2 && minor >= 1) || major > 2
  }

  function CheckPreamble(s: seq<byte>, pos: nat): Result<()> {
    var preamble :- ReadBytes(s, pos, 6);
    if preamble == PREAMBLE then Ok(()) else Err(NotPFile)
  }

  function CheckVersion(major: nat, minor: nat): Result<()> {
    if major >= MAX_VALID_VERSION || minor >= MAX_VALID_VERSION then Err(NotPFile)
    else if major > MAX_MAJOR_FOR_READING || major < MIN_MAJOR_FOR_READING then Err(NotSupportedVersion)
    else Ok(())
  }

  function ReadExtension(s: seq<byte>, offset: nat, length: nat): Result<seq<byte>> {
    if offset >= |s| then Err(BadArguments) else ReadBytes(s, offset, length)
  }

  /** The numbers of the table, as read. */
  datatype Table = Table(
    extensionOffset: nat, extensionLength: nat,
    plOffset: nat, plLength: nat,
    contentOffset: nat,
    originalFileSize: nat,
    metadataOffset: nat, metadataLength: nat)

  function ReadTable(s: seq<byte>, pos: nat, full: bool): Table {
    Table(Number(s, pos + 4, 4), Number(s, pos + 8, 4),
          Number(s, pos + 12, 4), Number(s, pos + 16, 4),
          Number(s, pos + 20, 4),
          if full then Number(s, pos + 24, 8) else 0,
          if full then Number(s, pos + 32, 4) else 0,
          if full then Number(s, pos + 36, 4) else 0)
  }

  /** The end of the header is a 32-bit sum. */
  function EndOfHeader(t: Table, full: bool): nat {
    (if full then t.metadataOffset + t.metadataLength else t.plOffset + t.plLength) % TWO_32
  }

  /** The blocks the table points to. */
  function ParseBlocks(s: seq<byte>, t: Table, major: nat, minor: nat, redirect: seq<byte>): Result<Header> {
    var full := HasMetadata(major, minor);
    if t.contentOffset < EndOfHeader(t, full) then Err(BadArguments)
    else
      var extension :- ReadExtension(s, t.extensionOffset, t.extensionLength);
      var license :- ReadBytes(s, t.plOffset, t.plLength);
      var metadata :- if full then ReadBytes(s, t.metadataOffset, t.metadataLength) else Ok([]);
      Ok(Header(license, extension, t.contentOffset, t.originalFileSize, metadata, major, minor, redirect))
  }

  /** What the reader makes of a stream that stands at `pos`. */
  function Parse(s: seq<byte>, pos: nat): Result<Header> {
    var _ :- CheckPreamble(s, pos);
    var major, minor := Number(s, pos + 6, 4), Number(s, pos + 10, 4);
    var _ :- CheckVersion(major, minor);
    var redirectLength := Number(s, pos + 14, 4);
    var redirect :- ReadBytes(s, pos + 18, redirectLength);
    ParseBlocks(s, ReadTable(s, pos + 18 + redirectLength, HasMetadata(major, minor)), major, minor, redirect)
  }

  // ---------------------------------------------------------------- round trip

  /** Numbers that fit the widths they are stored in. */
  predicate Fits32(h: Header) {
    && OffsetsOf(h).content < TWO_32
    && h.major < TWO_32 && h.minor < TWO_32 && h.originalFileSize < TWO_64
    && h.contentStart == OffsetsOf(h).content
  }

  lemma NumberAt(s: seq<byte>, pos: nat, n: nat)
    requires pos + 4 <= |s| && s[pos..pos + 4] == LittleEndian(n, 4) && n < TWO_32
    ensures Number(s, pos, 4) == n
  {
    assert Pow256(4) == TWO_32;
    LittleEndianRoundTrip(n, 4);
    assert Fetch(s, pos, 4) == s[pos..pos + 4];
  }

  lemma LongNumberAt(s: seq<byte>, pos: nat, n: nat)
    requires pos + 8 <= |s| && s[pos..pos + 8] == LittleEndian(n, 8) && n < TWO_64
    ensures Number(s, pos, 8) == n
  {
    assert Pow256(8) == TWO_64;
    LittleEndianRoundTrip(n, 8);
    assert Fetch(s, pos, 8) == s[pos..pos + 8];
  }

  /** Where each part of a printed header stands. */
  lemma Layout(h: Header, rest: seq<byte>)
    ensures var s, t, o := HeaderBytes(h) + rest, 18 + |h.redirect|, OffsetsOf(h);
            && o.content <= |s|
            && s[0..18] == Opening(h)
            && s[18..t] == h.redirect
            && s[t..t + 12] == Table1(h)
            && s[t + 12..t + 24] == Table2(h)
            && s[t + 24..t + 40] == Table3(h)
            && s[o.extension..o.license] == h.extension
            && s[o.license..o.metadata] == h.license
            && s[o.metadata..o.content] == h.metadata
  {
    hide Opening, Table1, Table2, Table3;
  }

  /** Where every number and every part of a printed header stands, byte by byte, least significant byte first. */
  lemma HeaderFormat(h: Header, i: nat)
    requires Fits32(h) && i < 8
    ensures var s, t := HeaderBytes(h), 18 + |h.redirect|;
            var e, l, m := |h.extension|, |h.license|, |h.metadata|;
            && |s| == t + 40 + e + l + m
            && s[..6] == [0x2E, 0x70, 0x66, 0x69, 0x6C, 0x65]
            && s[18..t] == h.redirect
            && (i < 4 ==>
              && s[6 + i] == h.major / Pow256(i) % 256
              && s[10 + i] == h.minor / Pow256(i) % 256
              && s[14 + i] == |h.redirect| / Pow256(i) % 256
              && s[t + i] == 40 / Pow256(i) % 256
              && s[t + 4 + i] == (t + 40) / Pow256(i) % 256
              && s[t + 8 + i] == e / Pow256(i) % 256
              && s[t + 12 + i] == (t + 40 + e) / Pow256(i) % 256
              && s[t + 16 + i] == l / Pow256(i) % 256
              && s[t + 20 + i] == (t + 40 + e + l + m) / Pow256(i) % 256
              && s[t + 32 + i] == (t + 40 + e + l) / Pow256(i) % 256
              && s[t + 36 + i] == m / Pow256(i) % 256)
            && s[t + 24 + i] == h.originalFileSize / Pow256(i) % 256
            && s[t + 40..] == h.extension + h.license + h.metadata
  {
    hide Opening, Table1, Table2, Table3, Pow256, LittleEndian, U32;
    Layout(h, []);
    var s, t := HeaderBytes(h), 18 + |h.redirect|;
    assert s + [] == s;
    OpeningFormat(h, i);
    TablesFormat(h, i);
    assert s[0..18][..6] == s[..6];
    assert i < 4 ==> s[t..t + 12][i] == s[t + i] && s[t + 12..t + 24][i] == s[t + 12 + i];
  }

  lemma OpeningFormat(h: Header, i: nat)
    requires Fits32(h)
    ensures Opening(h)[..6] == [0x2E, 0x70, 0x66, 0x69, 0x6C, 0x65]
    ensures i < 4 ==>
              && Opening(h)[6 + i] == h.major / Pow256(i) % 256
              && Opening(h)[10 + i] == h.minor / Pow256(i) % 256
              && Opening(h)[14 + i] == |h.redirect| / Pow256(i) % 256
  {
    hide Pow256;
    if i < 4 {
      U32Digit(h.major, i);
      U32Digit(h.minor, i);
      U32Digit(|h.redirect|, i);
    }
  }

  lemma U32Digit(n: nat, i: nat)
    requires n < TWO_32 && i < 4
    ensures U32(n)[i] == n / Pow256(i) % 256
  {
    hide Pow256, LittleEndian;
    LittleEndianDigit(n, 4, i);
  }

  lemma TablesFormat(h: Header, i: nat)
    requires Fits32(h) && i < 8
    ensures var t, e, l, m := 18 + |h.redirect|, |h.extension|, |h.license|, |h.metadata|;
            && (i < 4 ==>
              && Table1(h)[i] == 40 / Pow256(i) % 256
              && Table1(h)[4 + i] == (t + 40) / Pow256(i) % 256
              && Table1(h)[8 + i] == e / Pow256(i) % 256
              && Table2(h)[i] == (t + 40 + e) / Pow256(i) % 256
              && Table2(h)[4 + i] == l / Pow256(i) % 256
              && Table2(h)[8 + i] == (t + 40 + e + l + m) / Pow256(i) % 256
              && Table3(h)[8 + i] == (t + 40 + e + l) / Pow256(i) % 256
              && Table3(h)[12 + i] == m / Pow256(i) % 256)
            && Table3(h)[i] == h.originalFileSize / Pow256(i) % 256
  {
    hide Pow256, LittleEndian;
    var o := OffsetsOf(h);
    if i < 4 {
      U32Digit(40, i);
      U32Digit(o.extension, i);
      U32Digit(|h.extension|, i);
      U32Digit(o.license, i);
      U32Digit(|h.license|, i);
      U32Digit(o.content, i);
      U32Digit(o.metadata, i);
      U32Digit(|h.metadata|, i);
    }
    LittleEndianDigit(h.originalFileSize, 8, i);
  }

  // The numbers of a printed header, read back.

  lemma OpeningBack(s: seq<byte>, h: Header)
    requires Fits32(h) && 18 <= |s| && s[0..18] == Opening(h)
    ensures s[0..6] == PREAMBLE
    ensures Number(s, 6, 4) == h.major && Number(s, 10, 4) == h.minor && Number(s, 14, 4) == |h.redirect|
  {
    hide Number, LittleEndian;
    var a, b, c := U32(h.major), U32(h.minor), U32(|h.redirect|);
    assert Opening(h) == PREAMBLE + a + (b + c);
    Three(s, 0, PREAMBLE, a, b + c);
    Three(s, 10, b, c, []);
    NumberAt(s, 6, h.major);
    NumberAt(s, 10, h.minor);
    NumberAt(s, 14, |h.redirect|);
  }

  lemma ThreeNumbersBack(s: seq<byte>, at: nat, x: nat, y: nat, z: nat)
    requires x < TWO_32 && y < TWO_32 && z < TWO_32
    requires at + 12 <= |s| && s[at..at + 12] == U32(x) + U32(y) + U32(z)
    ensures Number(s, at, 4) == x && Number(s, at + 4, 4) == y && Number(s, at + 8, 4) == z
  {
    hide Number, LittleEndian;
    Three(s, at, U32(x), U32(y), U32(z));
    NumberAt(s, at, x);
    NumberAt(s, at + 4, y);
    NumberAt(s, at + 8, z);
  }

  lemma Table3Back(s: seq<byte>, at: nat, h: Header)
    requires Fits32(h) && at + 16 <= |s| && s[at..at + 16] == Table3(h)
    ensures Number(s, at, 8) == h.originalFileSize
    ensures Number(s, at + 8, 4) == OffsetsOf(h).metadata && Number(s, at + 12, 4) == |h.metadata|
  {
    hide Number, LittleEndian;
    Three(s, at, LittleEndian(h.originalFileSize, 8), U32(OffsetsOf(h).metadata), U32(|h.metadata|));
    LongNumberAt(s, at, h.originalFileSize);
    NumberAt(s, at + 8, OffsetsOf(h).metadata);
    NumberAt(s, at + 12, |h.metadata|);
  }

  lemma BlockBack(s: seq<byte>, at: nat, part: seq<byte>)
    requires at + |part| <= |s| && s[at..at + |part|] == part
    ensures ReadBytes(s, at, |part|) == Ok(part)
  {
    assert part + Zeros(0) == part;
  }

  /** What the reader is able to give back: version 2.0 has no place for size and metadata. */
  function Retained(h: Header): Header {
    if HasMetadata(h.major, h.minor) then h else h.(originalFileSize := 0, metadata := [])
  }

  function TableOf(h: Header): Table {
    var o, full := OffsetsOf(h), HasMetadata(h.major, h.minor);
    Table(o.extension, |h.extension|, o.license, |h.license|, o.content,
          if full then h.originalFileSize else 0,
          if full then o.metadata else 0,
          if full then |h.metadata| else 0)
  }

  lemma TableBack(h: Header, rest: seq<byte>)
    requires Fits32(h)
    ensures ReadTable(HeaderBytes(h) + rest, 18 + |h.redirect|, HasMetadata(h.major, h.minor)) == TableOf(h)
  {
    hide Number, U32;
    var s, t, o := HeaderBytes(h) + rest, 18 + |h.redirect|, OffsetsOf(h);
    Layout(h, rest);
    ThreeNumbersBack(s, t, TABLE_SIZE, o.extension, |h.extension|);
    ThreeNumbersBack(s, t + 12, o.license, |h.license|, o.content);
    Table3Back(s, t + 24, h);
  }

  lemma BlocksBack(h: Header, rest: seq<byte>, s: seq<byte>)
    requires Fits32(h) && s == HeaderBytes(h) + rest
    ensures |s| > OffsetsOf(h).extension ==> ParseBlocks(s, TableOf(h), h.major, h.minor, h.redirect) == Ok(Retained(h))
    ensures |s| <= OffsetsOf(h).extension ==>
              ParseBlocks(s, TableOf(h), h.major, h.minor, h.redirect) == Err(BadArguments)
  {
    hide ReadBytes, ReadExtension, EndOfHeader, HeaderBytes, OffsetsOf;
    ReadBack(h, rest, s);
    EndBack(h);
  }

  lemma ReadBack(h: Header, rest: seq<byte>, s: seq<byte>)
    requires s == HeaderBytes(h) + rest
    ensures var o := OffsetsOf(h);
            && ReadExtension(s, o.extension, |h.extension|)
               == (if o.extension < |s| then Ok(h.extension) else Err(BadArguments))
            && ReadBytes(s, o.license, |h.license|) == Ok(h.license)
            && ReadBytes(s, o.metadata, |h.metadata|) == Ok(h.metadata)
  {
    hide HeaderBytes, ReadBytes;
    var o := OffsetsOf(h);
    Layout(h, rest);
    BlockBack(s, o.extension, h.extension);
    BlockBack(s, o.license, h.license);
    BlockBack(s, o.metadata, h.metadata);
  }

  /** The table's own end of the header never exceeds the content offset. */
  lemma EndBack(h: Header)
    requires Fits32(h)
    ensures EndOfHeader(TableOf(h), HasMetadata(h.major, h.minor)) <= TableOf(h).contentOffset
  {
  }

  /**
   Reading what was written gives the header back exactly when its version is one the reader knows and the
   stream holds a byte behind the table; version 2.0 comes back without size and metadata.
   */
  lemma RoundTrip(h: Header, rest: seq<byte>)
    requires Fits32(h)
    ensures Parse(HeaderBytes(h) + rest, 0) == Expected(h, |HeaderBytes(h) + rest|)
  {
    hide Number, ReadBytes, Fetch, ReadTable, ParseBlocks, HeaderBytes;
    var s := HeaderBytes(h) + rest;
    Layout(h, rest);
    OpeningBack(s, h);
    BlockBack(s, 0, PREAMBLE);
    BlockBack(s, 18, h.redirect);
    TableBack(h, rest);
    BlocksBack(h, rest, s);
  }

  /** The outcome of reading a written header out of a stream of the given length. */
  function Expected(h: Header, length: nat): Result<Header> {
    if h.major >= 256 || h.minor >= 256 then Err(NotPFile)
    else if !(2 <= h.major <= 3) then Err(NotSupportedVersion)
    else if length <= OffsetsOf(h).extension then Err(BadArguments)
    else Ok(Retained(h))
  }

  /** Three parts in a row, each at its place. */
  lemma Three(s: seq<byte>, at: nat, a: seq<byte>, b: seq<byte>, c: seq<byte>)
    requires at + |a + b + c| <= |s| && s[at..at + |a + b + c|] == a + b + c
    ensures var i, j := at + |a|, at + |a| + |b|;
            s[at..i] == a && s[i..j] == b && s[j..j + |c|] == c
  {
    var i, j, n := |a|, |a| + |b|, |a + b + c|;
    SliceOfSlice(s, at, at + n, 0, i);
    SliceOfSlice(s, at, at + n, i, j);
    SliceOfSlice(s, at, at + n, j, n);
    assert (a + b + c)[..i] == a && (a + b + c)[i..j] == b && (a + b + c)[j..n] == c;
  }
}
