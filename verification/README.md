# Proofs about the RMS SDK's protected streams, files and caches

A Dafny model of the parts of the RMS SDK in which bytes, positions and cached entries must stay consistent.
`dafny verify dfyconfig.toml` checks all of it.

**The protected stream.** Content is enciphered block by block (4096-byte CBC with PKCS #7 padding, 512-byte CBC
without padding, or ECB) on a backing stream, behind a write-back cache of a single block.
`CacheModel` states what every cache operation does, as functions on values. `CacheTheory` proves one global
invariant, `Writer(c, content)`: which bytes a cache stands for, in each of its situations (nothing cached yet; cut to
nothing; the last block cached and pending; everything enciphered, perhaps with a middle block pending). A cache stands
for one content only. `ReaderTheory` does this for a stream opened on finished ciphertext, whose size counts padding.
`RunTheory` says when a stretch over several blocks goes through, `LoopTheory` what the read loop, the write loop and a
cut do from every state, whether it goes through or not, and `ReloadTheory` why a padded writer that comes back to its
last block gets less than it wrote. `OpenTheory` is about writing to content that was there before, and flushing it.
`ProtectedStream` has the three classes of the source with their fields and loops: the two inner ones compute
the functions of `CacheModel`; the outer one behaves as a plain byte array `content`, and its contracts say what happens
where it does not. `Chunks` and `StreamRuns` go on to whole runs: chunks in any order, and arbitrary operation sequences
in every mode against the same run on an array.
`BlockCipher`, `Providers` and `ProviderLoops` hold the ciphers: AES is any permutation of 16-byte blocks; chaining,
padding, block loops and argument checks are concrete. `CipherFormat` tells the finished ciphertext block by block,
independently of these functions: what is enciphered, with which vector or block before it, and that no other bytes meet
this format. A `Platform` stands for what the source leaves open: the bytes
that the cipher library leaves in a buffer behind the plain text when it takes padding off, and a byte that is never
set.

**The file.** `Pfile` prints and parses the header as bytes, `PfileStreams` does it step by step on a stream, creates
and opens protected files, and proves the way from written pieces back to bytes read at any offset. `ParallelCopy` is
the sample converter's lock-and-claim protocol as a step machine, for any number of threads and any schedule; every
fair one ends.
`Converter` lets that machine work on a real protected stream: converting to a protected file, back, and both in a row.

**The smaller stateful parts.** `IniFile`: settings printer, line parser, percent-escape decoder, chunked loader.
`TokenKeys`, `TokenState`, `TokenRuns`, `TokenCache`: case-insensitive keys, the persistent state, and where refresh
tokens end up over a run of stores and loads, down to a dictionary of shared mutable result objects.
`PolicyCache`: the list of at most 32 recently used policies. `XmlScanner`: the tag scanner against two lexers, one that
knows comments wherever the code does, and a plain one that knows them only between tags. `XmlNames` shows that the
scanner's comparison of names is one of whole words.

Reading conventions: `content` is what a stream denotes; `Region` is the backing bytes from the content start on;
`Whole(p, content)` is the encryption of the whole content as one final buffer. `Fits` says that block numbers fit the
32-bit integers of the source. A function with a name like `Parse`, `LoadText` or `Deserialized` is the specification of
the loop or method of similar name. An operation that throws returns `Err`, one that never returns `Err(Blocked)`.

Where code and comments or promises disagree, the model follows the code, and says exactly when the promise holds:

- A padded (CBC4K) writer that comes back to its last block after leaving it reloads it cut at its plain length, and the
  end of the plain bytes is then taken for padding. The reload throws exactly when the content is not a number of whole
  cipher blocks or does not end like padding; otherwise exactly the bytes before that end come back
  (`ReloadTheory.LoadPaddedTail`, `LoopTheory.Recovered`). From this follows exactly when a read returns what a plain
  array returns (`LoopTheory.ReadExact`). A write leaves what a plain array holds, on every platform, exactly when it
  runs, or when the reload succeeds, the write goes over the end and starts no later than the bytes that come back end
  (`LoopTheory.WriteExact`); if it starts later the outcome depends on what the cipher library leaves behind the plain
  text, and there is always a platform on which it is exact and one on which it is not (`LoopTheory.WriteCanSucceed`,
  `LoopTheory.WriteExact`). `LoopTheory.ReadLoopLost` and `LoopTheory.WriteLoopLost` say what happens otherwise: a read
  throws or comes out short; a write throws, goes on from the content as the cache sees it, or leaves a shorter stream.
  `StreamRuns.ComeBack` runs into it: after 5000 bytes it throws (`StreamRuns.FiveThousandLost`); after 4128 bytes that
  end in a 1 it returns the first ten bytes of the block rightly and never the last one (`StreamRuns.EndsLikePadding`).
  Sequential writes, 4096-aligned chunks in any order, all operations in the unpadded modes, and every run of operations
  that does not come back to a last block it has left (`StreamRuns.Run`) never get there.
- A cut goes through exactly when the byte before the new size can be reached and, in the block that stays cached, has
  been written out already; if it has not, the backing stream is asked to grow, waits for its own lock and never returns
  (`LoopTheory.CutExact`, `LoopTheory.CutCounts`), as after 100 bytes written and not flushed and a cut to 50
  (`StreamRuns.CutTooSoon`). What is left is the front of the content, on every platform, exactly when that byte is not
  lost in a reload (`LoopTheory.CutIsPrefix`). A cut to size 0 goes through exactly when the first block is the cached
  one; the stream is then empty (`CacheTheory.CutToNothing`).
- On existing content without padding, a write of any length is the write into a plain array exactly when the last block
  it touches is the last block or behind it; otherwise the stream then reports the end of the touched block as its size,
  and flushing brings the rest back into sight (`OpenTheory.OpenedWriteExact`, `OpenTheory.EarlyFlush`).
- Flushing a stream that was only read keeps its ciphertext, unless nothing is cached, the mode is padded and the
  ciphertext fits one block; then the flush enciphers an empty final block over the first 16 bytes, which keeps them
  exactly if the plain bytes are none or open with sixteen bytes 16 (`OpenTheory.ReaderFlushExact`).
- The decrement in `CalculateBlockNumber` never fires for a writer (`CacheTheory.NumbersExact`).
- A pfile header of version 2.0 comes back without its original size and metadata, and a header is only readable with
  at least one byte behind its table (`Pfile.RoundTrip`).
- Opening a version 2 file under a policy that says electronic codebook switches the policy object itself to CBC4K, for
  good. A new file that is written under it afterwards is chained, although its license says codebook: read under the
  policy as the server returns it, it gives other and more bytes than were written. This happens exactly for codebook
  policies and version 2 files (`PfileStreams.OpenThenWrite`, `PfileStreams.WrittenAfterOldFile`).
- Settings keys come back only when their group is not empty and their characters are 7-bit (or 255, which prints as
  `%ff`); keys with a slash never arise from the user paths, and a slash that is in a key anyway comes back, since it is
  escaped (`IniFile.SettingsRoundTrip`).
- The unique id of a token key is not written to the persistent state (`TokenState.StateRoundTrip`); after a run of
  stores and loads nothing is lost by that (`TokenCache.SaveAndRestore`).
- A load that finds a single entry of the resource among several matches returns the front of the list, which may be
  another entry. Whatever the order of the hash table, the entry found is of the requested resource exactly when one
  entry of the dictionary matches the query and is of that resource (`TokenCache.PickExact`, with a dictionary and query
  that go wrong in `TokenCache.PickMisses`); the access token is otherwise emptied. Several matches only construct an
  exception.
- Two threads that acquire one license at a time can store it twice (`PolicyCache.InterleavingsDuplicate`). Keys stay
  unique over a run exactly when every addition finds its key free among the first 31 entries
  (`PolicyCache.RunsUnique`), as it does when no other addition of the key comes between a lookup that missed and its
  own addition (`PolicyCache.UndisturbedUnique`).
- The scanner takes the start of a comment inside tags and quotes for a comment too, so `<c>` is not found in
  `<a b="<!--"><c>` (`XmlScanner.QuotedCommentHides`). It agrees with the plain lexer on a document exactly when it does
  on every tag (`XmlScanner.LexersAgree`), so whenever no comment starts inside a tag (`XmlScanner.CleanTagsAgree`).
  They agree on a tag, however many comments start in it, exactly when the plain lexer, behind the last comment that the
  code skips, is still in the tag with the code's quote open, or when neither lexer ends the tag
  (`XmlScanner.CommentInTagExact`); if that comment is closed and outside quotes they disagree unless the tag never ends
  (`XmlScanner.UnquotedDiffers`).

## Model

| member | source | states |
|---|---|---|
| BlockCipher.CbcRoundTrip | sdk/rmscrypto_sdk/Crypto/Cbc4kCryptoProvider.cpp:211-281 | cipher block chaining over whole blocks is undone by its inverse, for every key, vector and length |
| BlockCipher.EcbRoundTrip | sdk/rmscrypto_sdk/Crypto/EcbCryptoProvider.cpp:28-96 | the same for electronic codebook, and encryption undoes decryption |
| BlockCipher.EcbConcat | sdk/rmscrypto_sdk/Crypto/EcbCryptoProvider.cpp:28-96 | codebook encryption and decryption split at any block boundary |
| BlockCipher.UnpadInvertsPad | sdk/rmscrypto_sdk/Crypto/Cbc4kCryptoProvider.cpp:211-288 | stripping undoes padding for every length, and whatever stripping accepts was padding; anything else is a failed transform |
| CipherFormat.CbcChains | sdk/rmscrypto_sdk/Platform/Crypto/AESCryptoKey.cpp:98-147 | in a chained encryption every 16 bytes are the key's encryption of 16 plain bytes combined with the 16 cipher bytes before them, the first with the vector |
| CipherFormat.CbcUnchains | sdk/rmscrypto_sdk/Platform/Crypto/AESCryptoKey.cpp:98-147 | the same for decryption, which combines with the cipher block before |
| CipherFormat.EcbBlocks | sdk/rmscrypto_sdk/Crypto/EcbCryptoProvider.cpp:28-96 | in codebook mode every 16 bytes are transformed by themselves, both ways |
| CipherFormat.VectorsSpelled | sdk/rmscrypto_sdk/Crypto/Cbc4kCryptoProvider.cpp:290-305 | byte by byte what is enciphered to a vector: the block number in four bytes, or where a block of 512 starts in eight, least significant first, and zeros |
| CipherFormat.VectorsDiffer | sdk/rmscrypto_sdk/Crypto/Cbc512NoPaddingCryptoProvider.cpp:275-292 | two blocks share a vector exactly when their numbers are equal modulo 2^32, in both chained modes |
| CipherFormat.Cbc4kBlocks | sdk/rmscrypto_sdk/Crypto/Cbc4kCryptoProvider.cpp:80-245 | every 16 bytes of a padded encryption from any block number on: chained, with a new vector every 256 |
| CipherFormat.Cbc512Blocks | sdk/rmscrypto_sdk/Crypto/Cbc512NoPaddingCryptoProvider.cpp:39-235 | the same for 512-byte blocks, with a new vector every 32 |
| CipherFormat.OneFormat | sdk/rmscrypto_sdk/Crypto/Cbc4kCryptoProvider.cpp:80-245 | no two byte sequences meet the block-by-block format for one content |
| CipherFormat.CiphertextFormat | sdk/rmscrypto_sdk/Crypto/Cbc4kCryptoProvider.cpp:80-305 | in every mode and for every accepted length, the finished ciphertext is the one byte sequence of that format |
| Providers.TransformsInverse | sdk/rmscrypto_sdk/Crypto/Cbc4kCryptoProvider.cpp:211-305 | single-block decryption with a block number undoes encryption with the same number and keeps lengths, in both chained modes |
| Providers.Cbc4kLength | sdk/rmscrypto_sdk/Crypto/Cbc4kCryptoProvider.cpp:78-121 | a final encryption adds 1 to 16 bytes, a non-final one none |
| Providers.Cbc4kDecryptLength | sdk/rmscrypto_sdk/Crypto/Cbc4kCryptoProvider.cpp:124-209 | a final decryption loses 1 to 16 bytes, a non-final one none |
| Providers.Cbc512Length | sdk/rmscrypto_sdk/Crypto/Cbc512NoPaddingCryptoProvider.cpp:39-199 | the unpadded mode keeps lengths both ways |
| Providers.Cbc4kRoundTrip | sdk/rmscrypto_sdk/Crypto/Cbc4kCryptoProvider.cpp:80-208 | the decryption loop, which keeps a last full block for the final step, undoes the encryption loop, which does not |
| Providers.Cbc512RoundTrip | sdk/rmscrypto_sdk/Crypto/Cbc512NoPaddingCryptoProvider.cpp:39-199 | the same for the two differently bounded loops of the unpadded mode |
| Providers.Cbc4kConcat | sdk/rmscrypto_sdk/Crypto/Cbc4kCryptoProvider.cpp:80-121 | encrypting k blocks and then the rest, numbered from k on, is encrypting the whole |
| Providers.Cbc4kDecryptConcat | sdk/rmscrypto_sdk/Crypto/Cbc4kCryptoProvider.cpp:167-208 | the same for decryption, when a final rest is not empty |
| Providers.Cbc512Concat | sdk/rmscrypto_sdk/Crypto/Cbc512NoPaddingCryptoProvider.cpp:39-106 | the same for 512-byte encryption |
| Providers.Cbc512DecryptConcat | sdk/rmscrypto_sdk/Crypto/Cbc512NoPaddingCryptoProvider.cpp:108-199 | the same for 512-byte decryption |
| Providers.CipherLength | sdk/rmscrypto_sdk/Crypto/Cbc4kCryptoProvider.h:38-40 | length of what each provider produces for every accepted input |
| Providers.RoundTrip | sdk/rmscrypto_sdk/Crypto/Cbc4kCryptoProvider.cpp:41-209 | for every provider, accepted length, block number and final flag, decryption returns the plain bytes, and the announced cipher text size is the size produced |
| Providers.DecryptLength | sdk/rmscrypto_sdk/Crypto/Cbc4kCryptoProvider.cpp:124-209 | how many bytes any accepted decryption produces |
| Providers.EncryptAccepts | sdk/rmscrypto_sdk/Crypto/Cbc4kCryptoProvider.cpp:41-78 | exactly which lengths each provider encrypts, final or not; when not final, the multiples of its block size |
| Providers.DecryptAccepts | sdk/rmscrypto_sdk/Crypto/Cbc4kCryptoProvider.cpp:124-165 | exactly which lengths each provider decrypts; in an unpadded mode, or when not final, nothing else fails |
| Providers.AnnouncedSize | sdk/rmscrypto_sdk/Crypto/Cbc512NoPaddingCryptoProvider.cpp:201-207 | the announced size of every length, and which lengths have none |
| Providers.EncryptComposition | sdk/rmscrypto_sdk/Crypto/Cbc4kCryptoProvider.cpp:41-122 | for every provider, encryption composes at every multiple of its block, argument errors included |
| Providers.DecryptComposition | sdk/rmscrypto_sdk/Crypto/Cbc512NoPaddingCryptoProvider.cpp:108-199 | the same for decryption |
| ProviderLoops.Cbc4kEncryptLoop | sdk/rmscrypto_sdk/Crypto/Cbc4kCryptoProvider.cpp:41-122 | the pointer loop stores exactly the specified bytes, leaves the rest of the buffer alone, throws exactly on bad alignment or a short buffer, and answers a null buffer with the size |
| ProviderLoops.Cbc4kDecryptLoop | sdk/rmscrypto_sdk/Crypto/Cbc4kCryptoProvider.cpp:124-209 | the same for decryption, where the bytes behind the plain text are what the platform leaves there; a null buffer is answered with the input's length exactly when the alignment is right |
| ProviderLoops.Cbc512EncryptLoop | sdk/rmscrypto_sdk/Crypto/Cbc512NoPaddingCryptoProvider.cpp:39-106 | the same for 512-byte encryption; a buffer shorter than the blocks before the last is refused in the loop, and one too short for the last block alone is overrun, where the outcome is undefined |
| ProviderLoops.Cbc512DecryptLoop | sdk/rmscrypto_sdk/Crypto/Cbc512NoPaddingCryptoProvider.cpp:108-199 | the same for 512-byte decryption |
| ProviderLoops.EcbTransform | sdk/rmscrypto_sdk/Crypto/EcbCryptoProvider.cpp:28-96 | the same for codebook mode, both directions |
| ProviderLoops.Encrypt | sdk/rmscrypto_sdk/CryptoAPI/SimpleProtectedStream.cpp:166-180 | with a buffer of the announced size, every provider stores what its specification says |
| ProviderLoops.Decrypt | sdk/rmscrypto_sdk/CryptoAPI/SimpleProtectedStream.cpp:108-118 | the same for decryption into a caller's buffer, whose rest is kept, or left to the platform when padding is taken off |
| CacheTheory.Split | sdk/rmscrypto_sdk/CryptoAPI/CachedBlock.cpp:33-95 | the ciphertext of a content splits at every cache block boundary |
| CacheTheory.SplitTail | sdk/rmscrypto_sdk/CryptoAPI/CachedBlock.cpp:49-71 | finished ciphertext is the ciphertext of the whole blocks before a boundary followed by that of the tail |
| CacheTheory.SplitAround | sdk/rmscrypto_sdk/CryptoAPI/CachedBlock.cpp:49-71 | finished ciphertext around one full block: front, block, tail, each numbered on its own |
| CacheTheory.NumbersExact | sdk/rmscrypto_sdk/CryptoAPI/CachedBlock.cpp:171-191 | in every writer state block numbers are position / block size for all positions up to the size, the decrement never fires, and the size of the two mutually recursive functions is the logical length |
| CacheTheory.EvictTailBackward | sdk/rmscrypto_sdk/CryptoAPI/CachedBlock.cpp:44-79 | moving back from a pending last block finishes the ciphertext, exactly when the length is legal |
| CacheTheory.EvictTailForward | sdk/rmscrypto_sdk/CryptoAPI/CachedBlock.cpp:44-79 | moving on from a full pending last block writes it unpadded |
| CacheTheory.EvictMiddle | sdk/rmscrypto_sdk/CryptoAPI/CachedBlock.cpp:44-79 | writing a pending middle block restores the finished ciphertext around it |
| CacheTheory.WriteAt | sdk/rmscrypto_sdk/CryptoAPI/SimpleProtectedStream.cpp:138-200 | an enciphered write lands in the content region and nowhere else, and throws exactly when the provider does |
| CacheTheory.LoadPaddedTailFails | sdk/rmscrypto_sdk/CryptoAPI/CachedBlock.cpp:84-95 | reloading the last block of padded content in a writer throws or yields too few bytes, always |
| CacheTheory.UpdateExact | sdk/rmscrypto_sdk/CryptoAPI/CachedBlock.cpp:33-95 | UpdateBlock keeps the content and caches the right block exactly when CanMove holds; otherwise it throws or the cache no longer stands for the content |
| CacheTheory.ReadStep | sdk/rmscrypto_sdk/CryptoAPI/CachedBlock.cpp:97-123 | a read from the cached block is the read of the content cut at the end of the block |
| CacheTheory.WriteTail | sdk/rmscrypto_sdk/CryptoAPI/CachedBlock.cpp:125-169 | a write into the last block, or at the end, is that write into the content, and a padding written early counts as unwritten again |
| CacheTheory.WriteMiddle | sdk/rmscrypto_sdk/CryptoAPI/CachedBlock.cpp:125-169 | a write into an earlier block is that write into the content |
| CacheTheory.WriteStep | sdk/rmscrypto_sdk/CryptoAPI/CachedBlock.cpp:125-169 | both cases: the writer invariant holds for the spliced content, and how many bytes went in |
| CacheTheory.FlushExact | sdk/rmscrypto_sdk/CryptoAPI/CachedBlock.cpp:224-248 | Flush leaves exactly the finished ciphertext of the content, and throws exactly on an illegal length or, with 512-byte blocks, on no content |
| CacheTheory.RewriteKeeps | sdk/rmscrypto_sdk/CryptoAPI/CachedBlock.cpp:193-222 | reading the byte before the new size and writing it back changes only the flags |
| CacheTheory.CutToNothing | sdk/rmscrypto_sdk/CryptoAPI/CachedBlock.cpp:193-280 | a cut to size 0 goes through exactly when the first block is cached, and leaves an empty stream, in every mode |
| CacheTheory.OneMeaning | sdk/rmscrypto_sdk/CryptoAPI/CachedBlock.cpp:33-264 | a cache stands for one content only, so the content of a stream is determined by its fields and its backing bytes |
| CacheTheory.CutKeeps | sdk/rmscrypto_sdk/CryptoAPI/CachedBlock.cpp:266-280 | cutting backing stream and cached block leaves a writer for the prefix, last block pending |
| ReaderTheory.UpdateReader | sdk/rmscrypto_sdk/CryptoAPI/CachedBlock.cpp:33-95 | a reader can move from any cache state to any block below the end of its ciphertext and deciphers it rightly |
| ReaderTheory.BlockWithin | sdk/rmscrypto_sdk/CryptoAPI/CachedBlock.cpp:84-95 | every ciphertext block starts within the plain bytes, also when plain or cipher length is a multiple of the block size |
| ReaderTheory.ReaderSize | sdk/rmscrypto_sdk/CryptoAPI/SimpleProtectedStream.cpp:38-43 | the size a reader reports counts ciphertext and is never below the plain length |
| ReaderTheory.ReadStepReader | sdk/rmscrypto_sdk/CryptoAPI/CachedBlock.cpp:97-123 | a reader's block read is the read of the plain bytes cut at the end of the block |
| RunTheory.WriteRound | sdk/rmscrypto_sdk/CryptoAPI/BlockBasedProtectedStream.cpp:211-234 | one round of the write loop makes progress, keeps the invariant and leaves the rest of the write possible |
| RunTheory.ReadRound | sdk/rmscrypto_sdk/CryptoAPI/BlockBasedProtectedStream.cpp:108-129 | the same for the read loop of a writer |
| RunTheory.ReadRoundReader | sdk/rmscrypto_sdk/CryptoAPI/BlockBasedProtectedStream.cpp:108-129 | the same for a reader; an empty round means the end of the plain bytes |
| RunTheory.ReportedSize | sdk/rmscrypto_sdk/CryptoAPI/BlockBasedProtectedStream.cpp:363-371 | the size of either role in terms of what it denotes |
| RunTheory.TailReady | sdk/rmscrypto_sdk/CryptoAPI/BlockBasedProtectedStream.cpp:427-439 | after a write through the last block, writing can go on at the end |
| RunTheory.ShrinkRound | sdk/rmscrypto_sdk/CryptoAPI/BlockBasedProtectedStream.cpp:397-456 | where the last byte kept can be reached and is counted, the cut leaves a stream that denotes the prefix and can grow again |
| ReloadTheory.TailPrefix | sdk/rmscrypto_sdk/Crypto/Cbc4kCryptoProvider.cpp:211-245 | the ciphertext of a last block, up to its plain length, is the block enciphered without padding |
| ReloadTheory.TailDeciphers | sdk/rmscrypto_sdk/Crypto/Cbc4kCryptoProvider.cpp:124-281 | so deciphering it at that length fails on a broken cipher block, and otherwise strips the end of the plain bytes as if it were padding |
| ReloadTheory.LoadPaddedTail | sdk/rmscrypto_sdk/CryptoAPI/CachedBlock.cpp:84-95 | reloading the last block of padded content throws exactly unless the block is whole cipher blocks that end like padding, and then exactly the bytes before that end count, with whatever the platform leaves behind them in the buffer |
| ReloadTheory.ReloadLength | sdk/rmscrypto_sdk/CryptoAPI/CachedBlock.cpp:84-95 | the length condition is one on the whole content: a multiple of 16 |
| ReloadTheory.MoveExact | sdk/rmscrypto_sdk/CryptoAPI/CachedBlock.cpp:33-95 | what UpdateBlock does where CanMove fails: unpadded it throws, padded it is that reload |
| LoopTheory.ReadLoopRuns | sdk/rmscrypto_sdk/CryptoAPI/BlockBasedProtectedStream.cpp:106-131 | the read loop of a writer, where the run goes through, returns what a plain array returns, keeps the content and ends on the last block touched |
| LoopTheory.ReadLoopReads | sdk/rmscrypto_sdk/CryptoAPI/BlockBasedProtectedStream.cpp:106-131 | the read loop of a reader always returns what a plain array of the plain bytes returns, from any cache state |
| LoopTheory.ReadLoopLost | sdk/rmscrypto_sdk/CryptoAPI/BlockBasedProtectedStream.cpp:106-131 | where the run does not go through, the loop throws, or returns what an array of the recovered bytes returns, and the backing stream keeps the whole content |
| LoopTheory.ReadExact | sdk/rmscrypto_sdk/CryptoAPI/BlockBasedProtectedStream.cpp:106-131 | a read returns what a plain array returns exactly when its run goes through, or the last block can be reloaded and the read ends within what comes back |
| LoopTheory.WriteLoopRuns | sdk/rmscrypto_sdk/CryptoAPI/BlockBasedProtectedStream.cpp:204-245 | the write loop, where the run goes through, is the write into a plain array and ends on the last block touched |
| LoopTheory.WriteLoopLost | sdk/rmscrypto_sdk/CryptoAPI/BlockBasedProtectedStream.cpp:204-245 | where it does not, the loop throws, or goes on from the content as the reloaded cache shows it, platform bytes included, when it covers the end, or leaves a shorter stream |
| LoopTheory.WriteExact | sdk/rmscrypto_sdk/CryptoAPI/BlockBasedProtectedStream.cpp:204-245 | on every platform a write leaves what a plain array holds exactly when its run goes through, or the padded last block can be reloaded, the write covers the end and starts no later than the recovered bytes end |
| LoopTheory.WriteDepends | sdk/rmscrypto_sdk/CryptoAPI/BlockBasedProtectedStream.cpp:204-245 | on one platform it comes down to whether the reload shows the content before the write as it is |
| LoopTheory.WriteCanSucceed | sdk/rmscrypto_sdk/Platform/Crypto/AESCryptoKey.cpp:132-165 | for a write over the end that starts later there is a platform on which it is exact |
| LoopTheory.CutExact | sdk/rmscrypto_sdk/CryptoAPI/BlockBasedProtectedStream.cpp:397-456 | exactly when a cut goes through, and the content and cache it leaves; that it throws where the last byte cannot be reached, and never returns where it is not counted |
| LoopTheory.CutCounts | sdk/rmscrypto_sdk/CryptoAPI/SimpleProtectedStream.cpp:288-346 | the backing stream is asked to cut, and not to grow, exactly when the last byte kept is counted there: after a move to its block always, in the block that stays cached only as far as it has been written out |
| LoopTheory.CutIsPrefix | sdk/rmscrypto_sdk/CryptoAPI/CachedBlock.cpp:193-222 | on every platform a cut leaves the front of the content exactly when its last byte is not lost in a reload |
| LoopTheory.FilledMore | sdk/rmscrypto_sdk/CryptoAPI/BlockBasedProtectedStream.cpp:427-439 | one more run of zeros behind the end keeps the picture of the growth |
| OpenTheory.OpenedWriteExact | sdk/rmscrypto_sdk/CryptoAPI/BlockBasedProtectedStream.cpp:204-245 | a write of any length on existing unpadded content is the write into a plain array exactly when the last block it touches is the last block or behind it; otherwise the reported size becomes the end of the touched block |
| OpenTheory.EarlyFlush | sdk/rmscrypto_sdk/CryptoAPI/CachedBlock.cpp:224-264 | flushing after a write that ended in an earlier block leaves the whole content, enciphered, with the write in it |
| OpenTheory.ExistingWriteLoop | sdk/rmscrypto_sdk/CryptoAPI/BlockBasedProtectedStream.cpp:204-245 | such a write, also after other early writes, always goes through and leaves a writer or another early write |
| OpenTheory.EmptyFinal | sdk/rmscrypto_sdk/Crypto/Cbc4kCryptoProvider.cpp:41-122 | an empty final block enciphers to the start of short padded ciphertext exactly when the plain bytes are none or open with sixteen bytes 16 |
| OpenTheory.ReaderFlushExact | sdk/rmscrypto_sdk/CryptoAPI/CachedBlock.cpp:224-248 | flushing a stream that was only read throws exactly with 512-byte blocks and nothing cached, and keeps the ciphertext exactly unless an empty padded block is enciphered over its start and differs from it |
| ProtectedStream.SimpleProtectedStream.Create | sdk/rmscrypto_sdk/CryptoAPI/SimpleProtectedStream.cpp:18-47 | refuses exactly a content start behind the end; the content size is cut to what is there |
| ProtectedStream.SimpleProtectedStream.ReadInternal | sdk/rmscrypto_sdk/CryptoAPI/SimpleProtectedStream.cpp:62-123 | fills the buffer as specified, the bytes behind the plain text left to the platform where padding is taken off, with the same outcome |
| ProtectedStream.SimpleProtectedStream.WriteInternal | sdk/rmscrypto_sdk/CryptoAPI/SimpleProtectedStream.cpp:138-200 | new backing bytes and content size as specified; unchanged when it throws |
| ProtectedStream.SimpleProtectedStream.Size | sdk/rmscrypto_sdk/CryptoAPI/SimpleProtectedStream.cpp:288-346 | cuts content size and backing bytes together, and never returns when asked to grow |
| ProtectedStream.CachedBlock.constructor | sdk/rmscrypto_sdk/CryptoAPI/CachedBlock.cpp:17-26 | nothing cached, nothing pending, final block not written |
| ProtectedStream.CachedBlock.CalculateBlockNumber | sdk/rmscrypto_sdk/CryptoAPI/CachedBlock.cpp:171-191 | on the fields, what the value-level function says |
| ProtectedStream.CachedBlock.GetSizeInternal | sdk/rmscrypto_sdk/CryptoAPI/CachedBlock.cpp:250-264 | on the fields, what the value-level function says; the mutual recursion ends |
| ProtectedStream.CachedBlock.UpdateBlock | sdk/rmscrypto_sdk/CryptoAPI/CachedBlock.cpp:33-95 | computes the specified cache in place, and throws when it does |
| ProtectedStream.CachedBlock.ReadFromBlock | sdk/rmscrypto_sdk/CryptoAPI/CachedBlock.cpp:97-123 | copies the specified bytes |
| ProtectedStream.CachedBlock.WriteToBlock | sdk/rmscrypto_sdk/CryptoAPI/CachedBlock.cpp:125-169 | computes the specified cache and count in place |
| ProtectedStream.CachedBlock.RewriteFinalBlock | sdk/rmscrypto_sdk/CryptoAPI/CachedBlock.cpp:193-222 | computes the specified cache in place |
| ProtectedStream.CachedBlock.Flush | sdk/rmscrypto_sdk/CryptoAPI/CachedBlock.cpp:224-248 | computes the specified cache in place |
| ProtectedStream.CachedBlock.SizeInternal | sdk/rmscrypto_sdk/CryptoAPI/CachedBlock.cpp:266-280 | computes the specified cache in place, or throws and changes nothing |
| ProtectedStream.BlockBasedProtectedStream.constructor | sdk/rmscrypto_sdk/CryptoAPI/BlockBasedProtectedStream.cpp:29-44 | a new stream caches nothing; on empty content it denotes nothing as a writer, on finished ciphertext the plain bytes as a reader |
| ProtectedStream.BlockBasedProtectedStream.SizeInner | sdk/rmscrypto_sdk/CryptoAPI/BlockBasedProtectedStream.cpp:363-371 | a writer reports the length of its content, a reader the length of its ciphertext |
| ProtectedStream.BlockBasedProtectedStream.ReadFromPosition | sdk/rmscrypto_sdk/CryptoAPI/BlockBasedProtectedStream.cpp:106-131 | the loop on the objects computes the read loop on values, from any state, and throws when it does |
| ProtectedStream.BlockBasedProtectedStream.WriteFromPosition | sdk/rmscrypto_sdk/CryptoAPI/BlockBasedProtectedStream.cpp:204-245 | the loop on the objects computes the write loop on values, from any state, and throws when it does |
| ProtectedStream.BlockBasedProtectedStream.SeekInternal | sdk/rmscrypto_sdk/CryptoAPI/BlockBasedProtectedStream.cpp:330-352 | past the end a writable stream grows by zeros, or throws exactly when its cache cannot come to the end; a read-only one keeps its position and becomes invalid |
| ProtectedStream.BlockBasedProtectedStream.SetSizeInner | sdk/rmscrypto_sdk/CryptoAPI/BlockBasedProtectedStream.cpp:373-385 | content, position and cached block after a size change, exactly when it goes through, and when it never returns |
| ProtectedStream.BlockBasedProtectedStream.ProcessSizeChangeRequest | sdk/rmscrypto_sdk/CryptoAPI/BlockBasedProtectedStream.cpp:397-419 | the content is cut, to nothing too, or zero-extended to the requested size, the position is the smaller of the old one and the size; goes through exactly when the cache can come to the end, or to the byte before the new size, counted, or for size 0 when the first block is cached |
| ProtectedStream.BlockBasedProtectedStream.SizeInternal | sdk/rmscrypto_sdk/CryptoAPI/BlockBasedProtectedStream.cpp:444-456 | backing stream and cached block are cut together; it throws when the cached block lies behind the cut, and never returns when the backing stream counts less |
| ProtectedStream.BlockBasedProtectedStream.FillWithZeros | sdk/rmscrypto_sdk/CryptoAPI/BlockBasedProtectedStream.cpp:421-442 | the loop ends exactly at the requested size, with zeros behind the old content, or throws exactly when the cache cannot come to the end |
| ProtectedStream.BlockBasedProtectedStream.WriteInternalAsync | sdk/rmscrypto_sdk/CryptoAPI/BlockBasedProtectedStream.cpp:155-246 | a write at any offset is the write into a plain array with zero extension where WritesBack holds; otherwise it throws, goes on from the content as the reloaded cache shows it, or leaves a shorter stream, each exactly when stated; on existing content it is the write loop, with its outcome; a read-only stream refuses |
| ProtectedStream.BlockBasedProtectedStream.ReadAsync | sdk/rmscrypto_sdk/CryptoAPI/BlockBasedProtectedStream.cpp:64-133 | a read at any offset, from any reachable cache state, returns what a plain array returns: for a reader on finished ciphertext always, for a writer exactly when ReadsBack holds; otherwise it throws or stops before the bytes that were lost |
| ProtectedStream.BlockBasedProtectedStream.WriteAsync | sdk/rmscrypto_sdk/CryptoAPI/BlockBasedProtectedStream.cpp:135-153 | the same as the internal write; a read-only stream refuses |
| ProtectedStream.BlockBasedProtectedStream.Size | sdk/rmscrypto_sdk/CryptoAPI/BlockBasedProtectedStream.cpp:387-395 | growing and cutting as on a plain array, to nothing too, exactly when it goes through, and when it never returns; a read-only stream refuses |
| ProtectedStream.BlockBasedProtectedStream.FlushAsync | sdk/rmscrypto_sdk/CryptoAPI/BlockBasedProtectedStream.cpp:248-266 | for a writer it succeeds exactly on a length the provider can finish, and then the backing bytes from the content start are exactly the encryption of the content; on a stream that was only read, exactly when it throws and when it keeps the ciphertext; these bytes are told block by block, with their chaining and vectors |
| Chunks.BuildStep | sdk/rmscrypto_sdk/CryptoAPI/BlockBasedProtectedStream.cpp:189-245 | one more chunk at its place fills or overwrites a gap and keeps what was written |
| Chunks.BuiltAll | sdk/rmscrypto_sdk/CryptoAPI/BlockBasedProtectedStream.cpp:189-245 | when all chunks are written the array is the data |
| Chunks.ChunkWritable | sdk/rmscrypto_sdk/CryptoAPI/CachedBlock.cpp:33-95 | a chunk that has not been written yet can be written in every mode and cache position, padded mode included |
| Chunks.OrderDoesNotMatter | sdk/rmscrypto_sdk/CryptoAPI/BlockBasedProtectedStream.cpp:421-442 | writing every chunk once into an empty array gives the data, for every order |
| StreamRuns.WriteChunks | sdk/rmscrypto_sdk/CryptoAPI/BlockBasedProtectedStream.cpp:135-266 | writing the 4096-byte chunks of P in any order, each once, and flushing leaves exactly the whole-buffer encryption of P, in every mode, block by block in the cipher's format |
| StreamRuns.MovesExact | sdk/rmscrypto_sdk/CryptoAPI/CachedBlock.cpp:33-95 | at a length that can be finished, where the cache can go depends only on the block touched last and the length |
| StreamRuns.OpGoesThrough | sdk/rmscrypto_sdk/CryptoAPI/BlockBasedProtectedStream.cpp:64-456 | the condition on an operation and the block touched last makes the cache able to carry it out |
| StreamRuns.TouchesExact | sdk/rmscrypto_sdk/CryptoAPI/CachedBlock.cpp:33-95 | at a legal length the condition on the operation and the block touched last is exactly the condition on the cache, so no run is shut out that the cache can carry out |
| StreamRuns.UnpaddedFits | sdk/rmscrypto_sdk/CryptoAPI/CachedBlock.cpp:33-95 | without padding every read and write with a legal length fits, and so does every cut right after a flush |
| StreamRuns.Step | sdk/rmscrypto_sdk/CryptoAPI/BlockBasedProtectedStream.cpp:64-266 | one read, write, size change or flush that fits is that operation on a plain array, in every mode, and leaves the block it touched last in the cache |
| StreamRuns.Run | sdk/rmscrypto_sdk/CryptoAPI/BlockBasedProtectedStream.cpp:64-456 | every run from an empty stream that never comes back to a padded last block it has left, a condition on the operations alone, has the outputs and the final content of the run on a plain array, in every mode; after a flush the backing bytes are its encryption |
| StreamRuns.ComeBack | sdk/rmscrypto_sdk/CryptoAPI/BlockBasedProtectedStream.cpp:64-246 | two padded blocks written, a read in the first, a read in the last: it throws exactly unless the data end like padding, and then returns what stands before that end |
| StreamRuns.ComeBackWriting | sdk/rmscrypto_sdk/CryptoAPI/BlockBasedProtectedStream.cpp:64-246 | the same with a write into the last block, which leaves a shorter stream |
| StreamRuns.FiveThousand | sdk/rmscrypto_sdk/CryptoAPI/CachedBlock.cpp:84-95 | any 5000 bytes are data for which it throws |
| StreamRuns.FiveThousandLost | sdk/rmscrypto_sdk/CryptoAPI/BlockBasedProtectedStream.cpp:106-245 | the failing run on the cache: 5000 bytes written, the first byte read rightly, and then no read in the last block is possible |
| StreamRuns.EndsLikePadding | sdk/rmscrypto_sdk/CryptoAPI/CachedBlock.cpp:84-95 | 4128 bytes ending in a 1 come back without that byte: ten bytes of the last block are right, all 32 are not |
| StreamRuns.CutTooSoon | sdk/rmscrypto_sdk/CryptoAPI/SimpleProtectedStream.cpp:288-346 | a hundred bytes written into a new stream and a cut to fifty without a flush: the cut never returns |
| Pfile.HeaderLength | sdk/rms_sdk/PFile/PfileHeaderWriter.cpp:23-156 | the printed header is as long as the computed content offset says |
| Pfile.Layout | sdk/rms_sdk/PFile/PfileHeaderWriter.cpp:96-123 | every part of the printed header stands at its computed offset |
| Pfile.HeaderFormat | sdk/rms_sdk/PFile/PfileHeaderWriter.cpp:23-156 | every number of a printed header at its absolute position, byte by byte and least significant first, the preamble, and the parts behind the table |
| Pfile.TableBack | sdk/rms_sdk/PFile/PfileHeaderReader.cpp:132-160 | the offset table is read back as it was computed |
| Pfile.BlocksBack | sdk/rms_sdk/PFile/PfileHeaderReader.cpp:113-218 | extension, license and metadata are read back through the table, unless the stream ends before the extension |
| Pfile.RoundTrip | sdk/rms_sdk/PFile/PfileHeaderReader.cpp:28-218 | for every header whose numbers fit, whatever follows it, parsing what was printed gives exactly the expected outcome: the header, or the right error for a version or a stream that cannot be read |
| PfileStreams.WriteOpening | sdk/rms_sdk/PFile/PfileHeaderWriter.cpp:50-94 | preamble, version and redirection text are written in a row and counted |
| PfileStreams.WriteHeader | sdk/rms_sdk/PFile/PfileHeaderWriter.cpp:96-123 | the table written with 32-bit running sums is the specified table |
| PfileStreams.OffsetsWrap | sdk/rms_sdk/PFile/PfileHeaderWriter.cpp:96-123 | offsets summed in 32 bits are the offsets cut to 32 bits |
| PfileStreams.Write | sdk/rms_sdk/PFile/PfileHeaderWriter.cpp:23-48 | the seven writes put exactly the header bytes at the stream's position |
| PfileStreams.ReadNumber | sdk/rms_sdk/PFile/PfileHeaderReader.cpp:64-90 | a fixed-width number at the position; where the stream ends within it, zeros stand for the bytes that are missing |
| PfileStreams.ReadBlock | sdk/rms_sdk/PFile/PfileHeaderReader.cpp:201-218 | a counted block, or an error when it is longer than the stream |
| PfileStreams.ReadHeader | sdk/rms_sdk/PFile/PfileHeaderReader.cpp:132-190 | the seeking reader computes the specified parse of table and blocks |
| PfileStreams.Read | sdk/rms_sdk/PFile/PfileHeaderReader.cpp:28-38 | reading from any stream, well-formed or not, is the specified parse |
| PfileStreams.ContentStartExact | sdk/rms_sdk/ModernAPI/ProtectedFileStream.cpp:141-155 | the literal 454 plus extension, license and metadata lengths equals the writer's content offset and the header's length |
| PfileStreams.CreateProtectedFileStream | sdk/rms_sdk/ModernAPI/ProtectedFileStream.cpp:167-214 | opens the content behind a header and refuses exactly a content start behind the end; a codebook policy is switched to CBC4K exactly when the header's major version is at most 2, and keeps that mode, even when the opening fails; the cache block is 512 bytes for the 512-byte mode and 4096 otherwise; the stream denotes nothing, or the plain bytes of finished ciphertext |
| PfileStreams.Policy.ReinitializeCryptoProvider | sdk/rms_sdk/Core/ProtectionPolicy.cpp:434-439 | the policy changes its mode and keeps its key |
| PfileStreams.Create | sdk/rms_sdk/ModernAPI/ProtectedFileStream.cpp:123-165 | the header is printed where the stream stands and the content behind it is opened, whatever the stream held; behind a new header it is empty |
| PfileStreams.NewFile | sdk/rms_sdk/ModernAPI/ProtectedFileStream.cpp:123-165 | on an empty stream that leaves exactly the header, its content start is its length, and the content is empty |
| PfileStreams.WriteSequentially | sdk/rmscrypto_sdk/CryptoAPI/BlockBasedProtectedStream.cpp:273-276 | pieces of any sizes, written in a row, append, in every mode |
| PfileStreams.FileBytes | sdk/rms_sdk/ModernAPI/ProtectedFileStream.cpp:123-214 | header bytes followed by ciphertext parse back to the header, and the rest deciphers to the content |
| PfileStreams.WriteFile | sdk/rms_sdk/ModernAPI/ProtectedFileStream.cpp:123-250 | create, write in pieces and flush leave header and ciphertext, the ciphertext block by block in the cipher's format, and the header is not touched by content writes |
| PfileStreams.FlushFile | sdk/rmscrypto_sdk/CryptoAPI/BlockBasedProtectedStream.cpp:247-271 | flushing a stream behind a header leaves header and ciphertext |
| PfileStreams.OldFilesAreChained | sdk/rms_sdk/ModernAPI/ProtectedFileStream.cpp:182-189 | a readable file has major version 2 or 3; what reading takes for the plain bytes is deciphered with CBC4K for a codebook policy at version 2, with codebook at version 3, and in the policy's own mode otherwise |
| PfileStreams.WrittenHolds | sdk/rms_sdk/ModernAPI/ProtectedFileStream.cpp:47-214 | what was written as header and ciphertext opens again as that header and that content |
| PfileStreams.Acquire | sdk/rms_sdk/ModernAPI/ProtectedFileStream.cpp:47-121 | opening gives no stream exactly for bytes that are no protected file, throws exactly when the header cannot be read otherwise or points behind the end, and else gives the header and a reader of the content, in CBC4K when the policy says codebook and the file is of version 2 |
| PfileStreams.ReadFile | sdk/rms_sdk/ModernAPI/ProtectedFileStream.cpp:47-121 | opening a file of any readable version read-only and reading at any offset gives header and plain bytes; bytes without the preamble or with a version number out of range give no stream, and it throws exactly when the header cannot be read otherwise or points behind the end; an offset behind the ciphertext reads from the start, where the stream still stands; version 2 files of a codebook policy are deciphered with CBC4K |
| PfileStreams.EndToEnd | sdk/rms_sdk/ModernAPI/ProtectedFileStream.cpp:123-250 | what is written in any pieces is read back at any offset, with the license and the extension, which is `.pfile` when none was given |
| PfileStreams.OpenThenWrite | sdk/rms_sdk/ModernAPI/ProtectedFileStream.cpp:47-214 | a new file that is written under the policy object that opened another file is enciphered in the mode which that file left behind |
| PfileStreams.WrittenAfterOldFile | sdk/rms_sdk/ModernAPI/ProtectedFileStream.cpp:182-189 | such a file, read under the policy as the server returns it, holds what was written exactly unless the policy says codebook and the file opened before was of version 2; then the reader gets the chained ciphertext deciphered as codebook blocks |
| ParallelCopy.LockedKept | samples/rms_sample/pfileconverter.cpp:37-104 | exactly the owner of the lock is in a locked section, after any action |
| ParallelCopy.PositionsKept | samples/rms_sample/pfileconverter.cpp:47-52 | both positions advance together, up to what the lock's owner has half done |
| ParallelCopy.DisjointKept | samples/rms_sample/pfileconverter.cpp:47-52 | no two workers hold the same claim |
| ParallelCopy.AccountedKept | samples/rms_sample/pfileconverter.cpp:57-104 | every claim is held, written, or was found to lie behind the data |
| ParallelCopy.BuiltKept | samples/rms_sample/pfileconverter.cpp:57-104 | the output always holds exactly the chunks written so far, with zeros in the gaps |
| ParallelCopy.InvariantKept | samples/rms_sample/pfileconverter.cpp:31-106 | every action of every worker keeps the whole invariant |
| ParallelCopy.InvariantAlways | samples/rms_sample/pfileconverter.cpp:31-106 | it holds after every schedule |
| ParallelCopy.CopyIsExact | samples/rms_sample/pfileconverter.cpp:190-258 | under every interleaving claims are disjoint and the positions differ by a constant; when all workers have left, the output equals the data, in both directions, early leavers included |
| ParallelCopy.WritesAreAdmissible | samples/rms_sample/pfileconverter.cpp:67-73 | no write of any interleaving is one the protected stream would refuse or lose, whatever its mode and cache position |
| ParallelCopy.ActionsEnd | samples/rms_sample/pfileconverter.cpp:37-105 | every action that changes anything lowers a measure, so every schedule ends |
| ParallelCopy.NoDeadlock | samples/rms_sample/pfileconverter.cpp:37-105 | while a worker has not left, some worker can act |
| ParallelCopy.RoundActs | samples/rms_sample/pfileconverter.cpp:37-105 | a round in which every worker gets a turn lowers the measure while a worker has not left |
| ParallelCopy.FairSchedulesEnd | samples/rms_sample/pfileconverter.cpp:31-106 | every fair schedule ends: after four rounds for each worker and eleven for each 4096-byte chunk all workers have left and the output is the data |
| Converter.SinkKept | samples/rms_sample/pfileconverter.cpp:57-73 | while writing, only the write to the protected stream changes the output |
| Converter.Act | samples/rms_sample/pfileconverter.cpp:31-106 | one action of one worker carried out on the stream objects is the step of the machine, in both directions |
| Converter.RunThreads | samples/rms_sample/pfileconverter.cpp:198-256 | so is every schedule; the stream denotes the machine's output after it, and its header is untouched |
| Converter.FairConversionsEnd | samples/rms_sample/pfileconverter.cpp:181-259 | so conversions end under every fair schedule, in both directions |
| Converter.ConvertToPFile | samples/rms_sample/pfileconverter.cpp:181-214 | for every file, cipher mode, thread count and interleaving that ends, the result is exactly the header followed by the encryption of the whole file |
| Converter.ConvertFromPFile | samples/rms_sample/pfileconverter.cpp:216-259 | for every readable version and every interleaving that ends, the output is exactly the content, although the size to copy counts padding and workers leave early; bytes that are no protected file give nothing, and it throws exactly when opening throws; version 2 files of a codebook policy are deciphered with CBC4K |
| Converter.ConvertThereAndBack | samples/rms_sample/pfileconverter.cpp:181-259 | converting there and back, under any two interleavings that end, returns the file |
| IniFile.EncodeDecodes | sdk/rmsutils/IniFile.h:97-152 | one encoded character brings the escape decoder from its start state back to it and yields that character, or 255 for one above 127 |
| IniFile.PathDecodes | sdk/rmsutils/IniFile.h:97-171 | the same for a whole name |
| IniFile.NameRoundTrip | sdk/rmsutils/IniFile.h:155-171 | a name comes back exactly when all its characters are 7-bit or 255 |
| IniFile.EncodeExact | sdk/rmsutils/IniFile.h:142-152 | which characters print as themselves, and the three characters that each other one prints as |
| IniFile.DigitsExact | sdk/rmsutils/IniFile.h:97-129 | which characters are hexadecimal digits, and of which value |
| IniFile.EncodePathOf | sdk/rmsutils/IniFile.h:165-171 | the character loop computes the specified encoding |
| IniFile.DecodeUserPathOf | sdk/rmsutils/IniFile.h:173-190 | the character loop computes the specified path |
| IniFile.UserPathExact | sdk/rmsutils/IniFile.h:173-190 | a key's path is the key with backslashes for slashes, behind the group General when it has neither |
| IniFile.GetValueExact | sdk/rmsutils/IniFile.h:58-62 | a lookup yields the value of the path that the key stands for, and the default when there is none |
| IniFile.NameCoder.Decode | sdk/rmsutils/IniFile.h:97-129 | the object's step is the automaton's step |
| IniFile.NameCoder.DecodeFinish | sdk/rmsutils/IniFile.h:131-140 | an unfinished escape is kept as it is |
| IniFile.DecodePathOf | sdk/rmsutils/IniFile.h:156-162 | the character loop computes the specified decoding |
| IniFile.TrimExact | sdk/rmsutils/IniFile.h:225-231 | trimming takes away exactly the blanks and the characters 9 to 13 at both ends |
| IniFile.LineExact | sdk/rmsutils/IniFile.h:233-258 | a line sets a value exactly when it opens with no bracket and has an equals sign, and sets the group exactly when it opens with a bracket and has a closing one |
| IniFile.Parser.Parse | sdk/rmsutils/IniFile.h:233-258 | the effect of a line, and the group afterwards |
| IniFile.Settings.constructor | sdk/rmsutils/IniFile.h:28-30 | new settings are what their file says, and every path has a group |
| IniFile.Settings.SetValue | sdk/rmsutils/IniFile.h:53-56 | afterwards every spelling of the key finds the value, every other key finds what it found before, and every stored path has a group, so that saving is safe |
| IniFile.SameEntryPaths | sdk/rmsutils/IniFile.h:53-190 | two keys share an entry exactly when they are equal up to slashes and a missing General group |
| IniFile.LoadedHaveGroups | sdk/rmsutils/IniFile.h:223-286 | every path loaded from any file has a group too |
| IniFile.UserPathHasGroup | sdk/rmsutils/IniFile.h:173-190 | every stored path has a group, so the assertion in save never fails |
| IniFile.Settings.Save | sdk/rmsutils/IniFile.h:192-221 | the printing loop computes the specified text |
| IniFile.Settings.TakeChunk | sdk/rmsutils/IniFile.h:272-284 | a chunk hands the parser exactly its complete lines and keeps the rest |
| IniFile.Settings.Load | sdk/rmsutils/IniFile.h:260-286 | reading in 1024-byte chunks parses exactly the terminated lines of the whole file, wherever the boundaries fall |
| IniFile.JoinDecodes | sdk/rmsutils/IniFile.h:200-214 | group and subpath decode independently although they are decoded in one pass |
| IniFile.HeadingParses | sdk/rmsutils/IniFile.h:204-247 | a printed heading is parsed as its group |
| IniFile.EntryParses | sdk/rmsutils/IniFile.h:214-257 | a printed entry is parsed as its name and value |
| IniFile.LoadEntry | sdk/rmsutils/IniFile.h:199-258 | a printed entry, with or without a heading, stores its value under its path |
| IniFile.LoadSaved | sdk/rmsutils/IniFile.h:192-286 | loading a printed map stores each value under the path its key comes back as |
| IniFile.PathOfPath | sdk/rmsutils/IniFile.h:156-190 | coming back twice is coming back once, and a key comes back as itself exactly when its group is not empty and its characters survive |
| IniFile.LoadedValuesGood | sdk/rmsutils/IniFile.h:223-286 | no file loads a value that is not trimmed or has a newline |
| IniFile.SettingsRoundTrip | sdk/rmsutils/IniFile.h:192-286 | for every map and enumeration order, loading what was saved gives the same map exactly when every key keeps and every value is trimmed and newline-free |
| TokenKeys.EqualsIsIdentity | sdk/rmsauth_sdk/rmsauth/TokenCacheKey.cpp:28-41 | key equality is equality of lower-case representatives, an equivalence |
| TokenKeys.EqualsICExact | sdk/rmsauth_sdk/rmsauth/utils.cpp:26-35 | texts are equal up to case exactly when they agree byte by byte up to the case of the letters A to Z |
| TokenKeys.HashRespectsEquals | sdk/rmsauth_sdk/rmsauth/TokenCacheKey.cpp:43-61 | equal keys have the same hashed text, and unequal keys can share it |
| TokenKeys.HashTells | sdk/rmsauth_sdk/rmsauth/TokenCacheKey.cpp:43-61 | keys without colons share the hashed text exactly when they are equal |
| TokenState.NumberComesBack | sdk/rmsauth_sdk/rmsauth/TokenCacheQt.cpp:24-65 | four big-endian bytes hold any integer modulo 2^32 |
| TokenState.Int2Uint8 | sdk/rmsauth_sdk/rmsauth/TokenCacheQt.cpp:24-34 | the shift loop computes the specified bytes, for negative numbers too |
| TokenState.Str2Uint8 | sdk/rmsauth_sdk/rmsauth/TokenCacheQt.cpp:36-46 | length and bytes |
| TokenState.GetIntNumber | sdk/rmsauth_sdk/rmsauth/TokenCacheQt.cpp:56-65 | the loop computes the specified number and position, or would read outside |
| TokenState.GetString | sdk/rmsauth_sdk/rmsauth/TokenCacheQt.cpp:67-77 | the loop computes the specified string and position, with the end position modulo 2^32 |
| TokenState.TextAt | sdk/rmsauth_sdk/rmsauth/TokenCacheQt.cpp:36-77 | a counted string is read back wherever it stands |
| TokenState.PutItem | sdk/rmsauth_sdk/rmsauth/TokenCacheQt.cpp:114-126 | the five parts of an entry, without its unique id |
| TokenState.StateOpens | sdk/rmsauth_sdk/rmsauth/TokenCacheQt.cpp:107-112 | a written state opens with the version 2 and the number of entries, most significant byte first |
| TokenState.TakeItem | sdk/rmsauth_sdk/rmsauth/TokenCacheQt.cpp:203-219 | reads an entry as specified, with the key's unique id taken from its result |
| TokenState.ItemAt | sdk/rmsauth_sdk/rmsauth/TokenCacheQt.cpp:114-219 | a written entry is read back, up to its unique id |
| TokenState.ItemsAt | sdk/rmsauth_sdk/rmsauth/TokenCacheQt.cpp:201-221 | written entries are inserted one after another, from any position and into any dictionary |
| TokenState.Inserted | sdk/rmsauth_sdk/rmsauth/TokenCacheQt.cpp:220 | insertions keep what is there, cover every key and invent nothing |
| TokenState.StateRoundTrip | sdk/rmsauth_sdk/rmsauth/TokenCacheQt.cpp:80-231 | for every dictionary and hash order, reading the written state into an empty cache succeeds, and gives the same entries up to the case of keys exactly when every key's unique id is that of its result's user |
| TokenRuns.TokensConverge | sdk/rmsauth_sdk/rmsauth/TokenCache.cpp:128-169 | over every run, each entry holds the result of its last store, with the refresh token of the latest store since whose query matches it |
| TokenRuns.GroupsConverge | sdk/rmsauth_sdk/rmsauth/TokenCache.cpp:156-169 | when stores name client and user, all multi-resource entries of one authority, client, subject type and user hold the token of the latest such store |
| TokenRuns.OtherGroupsKept | sdk/rmsauth_sdk/rmsauth/TokenCache.cpp:209-226 | such a store leaves the entries of other groups alone |
| TokenRuns.StoredAgrees | sdk/rmsauth_sdk/rmsauth/TokenCache.cpp:128-154 | a store keeps unique ids in agreement with users, also when it replaces a result under an older spelling |
| TokenRuns.RunsAgree | sdk/rmsauth_sdk/rmsauth/TokenCache.cpp:128-154 | so they agree after every run, and the state round trip applies |
| TokenCache.PickExact | sdk/rmsauth_sdk/rmsauth/TokenCache.cpp:171-207 | whatever the order of the hash table, the entry picked is of the requested resource exactly when one entry of the dictionary matches the query and it is of that resource |
| TokenCache.PickFound | sdk/rmsauth_sdk/rmsauth/TokenCache.cpp:171-207 | what is picked, in terms of the dictionary, for every hash order: nothing if several matching entries are of the resource; a matching entry if just one is; and if none is, a matching entry with a multi-resource token exactly when there is one |
| TokenCache.PickMisses | sdk/rmsauth_sdk/rmsauth/TokenCache.cpp:186-190 | a dictionary of two entries and a query that matches both, for which the entry of another resource is picked |
| TokenCache.NamedQueryHasOneMatch | sdk/rmsauth_sdk/rmsauth/TokenCache.cpp:174-184 | a query that names client and user never matches several entries of one resource |
| TokenCache.TokenCache.QueryCache | sdk/rmsauth_sdk/rmsauth/TokenCache.cpp:209-226 | exactly the matching entries, each once |
| TokenCache.TokenCache.UpdateCachedMrrtRefreshTokens | sdk/rmsauth_sdk/rmsauth/TokenCache.cpp:156-169 | exactly the objects of matching multi-resource entries take the token, shared objects included |
| TokenCache.TokenCache.Replace | sdk/rmsauth_sdk/rmsauth/TokenCache.cpp:138-149 | updates under the old spelling of an equal key or inserts |
| TokenCache.TokenCache.StoreToCache | sdk/rmsauth_sdk/rmsauth/TokenCache.cpp:128-154 | the new dictionary and the value of every object; without shared objects this is the store on values |
| TokenCache.TokenCache.LoadSingleItemFromCache | sdk/rmsauth_sdk/rmsauth/TokenCache.cpp:171-207 | the counting loop and the search loop pick, from some enumeration of the matching entries, the front if one is of the resource, nothing if several are, and if none is a multi-resource entry exactly when the dictionary has one that matches |
| TokenCache.TokenCache.UseItem | sdk/rmsauth_sdk/rmsauth/TokenCache.cpp:86-109 | empties a stale access token and removes an entry without any token |
| TokenCache.TokenCache.LoadFromCache | sdk/rmsauth_sdk/rmsauth/TokenCache.cpp:78-126 | what is returned has a token, and an access token only if valid beyond 300 seconds and stored for the resource under a matching key; its effect on the dictionary. The object picked keeps its refresh token, and its access token exactly if it is valid for more than 300 seconds and of the resource. When no entry of the resource matches, the result is a matching multi-resource object with its refresh token kept and its access token emptied, or null when there is none or one without a refresh token |
| TokenCache.TokenCache.Serialize | sdk/rmsauth_sdk/rmsauth/TokenCacheQt.cpp:80-133 | writes the specified state for some enumeration of the dictionary |
| TokenCache.TokenCache.Deserialize | sdk/rmsauth_sdk/rmsauth/TokenCacheQt.cpp:136-231 | for every state, the dictionary and outcome specified; old objects stay, new ones are fresh |
| TokenCache.Run | sdk/rmsauth_sdk/rmsauth/TokenCache.cpp:78-169 | a run of stores and loads on the objects is the replay of its history on values, to which the theorems on runs apply |
| TokenCache.SaveAndRestore | sdk/rmsauth_sdk/rmsauth/TokenCacheQt.cpp:80-231 | after any run of stores and loads the state written by the cache, for some order of its hash table, read into a new one, gives the same entries up to the case of keys |
| PolicyCache.PolicyList.GetCachedProtectionPolicy | sdk/rms_sdk/Core/ProtectionPolicy.cpp:500-556 | the first match, moved to the front, or nothing: for a requester exactly when some entry has this license and, up to case, this requester, and without one exactly when some entry has the license |
| PolicyCache.PolicyList.AddProtectionPolicyToCache | sdk/rms_sdk/Core/ProtectionPolicy.cpp:558-575 | the new list, the last entry dropped beyond 32 |
| PolicyCache.PolicyList.Acquire | sdk/rms_sdk/Core/ProtectionPolicy.cpp:82-149 | returns a policy of this license and, if a requester is asked for, of this requester up to case: one of the list when it has one, and otherwise the one fetched, which then stands at the front if it is to be stored; one entry per license and requester is kept |
| PolicyCache.LookupFinds | sdk/rms_sdk/Core/ProtectionPolicy.cpp:516-540 | a lookup for a requester hits exactly when some entry has its key, and one without a requester exactly when some entry has the license |
| PolicyCache.AddedUnique | sdk/rms_sdk/Core/ProtectionPolicy.cpp:558-575 | an addition keeps keys unique exactly when none of the first 31 entries of the list before it has the new key |
| PolicyCache.AcquireKeepsUnique | sdk/rms_sdk/Core/ProtectionPolicy.cpp:98-145 | one acquisition keeps keys unique and the list within 32 entries |
| PolicyCache.SequentialUnique | sdk/rms_sdk/Core/ProtectionPolicy.cpp:82-149 | acquisitions one after another, any number of them in any mix of empty and non-empty requesters, never store two policies of one license and requester |
| PolicyCache.RunsUnique | sdk/rms_sdk/Core/ProtectionPolicy.cpp:98-145 | under any interleaving of lookups and additions keys are unique throughout exactly when every addition finds its key free |
| PolicyCache.UndisturbedUnique | sdk/rms_sdk/Core/ProtectionPolicy.cpp:98-145 | in particular when no addition of the same key falls between a lookup that missed and its own addition |
| PolicyCache.InterleavingsDuplicate | sdk/rms_sdk/Core/ProtectionPolicy.cpp:98-145 | interleaved acquisitions can |
| PolicyCache.HitKeepsLru | sdk/rms_sdk/Core/ProtectionPolicy.cpp:547-555 | a hit permutes the list and keeps it in order of last use |
| PolicyCache.AddKeepsLru | sdk/rms_sdk/Core/ProtectionPolicy.cpp:566-574 | an addition keeps the order and evicts only the least recently used |
| PolicyCache.ListIsLru | sdk/rms_sdk/Core/ProtectionPolicy.cpp:500-575 | after every run in any interleaving, the list holds the most recently used policies, at most 32, in order of last use, and every other policy ever used is older |
| PolicyCache.LookupFindsMostRecent | sdk/rms_sdk/Core/ProtectionPolicy.cpp:516-547 | a hit is the most recently used match among all policies ever used |
| XmlScanner.TokenAt | sdk/rms_sdk/RestClients/CXMLUtils.cpp:47-109 | a tag token starts with an opening bracket that starts no comment and ends with a closing one |
| XmlNames.NameExact | sdk/rms_sdk/RestClients/CXMLUtils.cpp:17-23 | for every name, comparing it with the characters behind the bracket and looking at the next one is the same as comparing it with the whole word of letters and digits that stands there |
| XmlNames.PlainNames | sdk/rms_sdk/RestClients/CXMLUtils.cpp:17-23 | for names of letters and digits: the longest run of letters and digits behind the bracket, and behind the slash of an ender, is the name up to case |
| XmlScanner.CommentExact | sdk/rms_sdk/RestClients/CXMLUtils.cpp:47-66 | a comment starts exactly at its mark, and ends behind the first end mark that follows, or with the document |
| XmlScanner.TokensTile | sdk/rms_sdk/RestClients/CXMLUtils.cpp:47-109 | comments, tags and text tile the document, so tags overlap neither comments nor other tags |
| XmlScanner.OutsideStep | sdk/rms_sdk/RestClients/CXMLUtils.cpp:60-81 | the first tag from a position outside comments and tags, one character further |
| XmlScanner.AwaitedInTag | sdk/rms_sdk/RestClients/CXMLUtils.cpp:82-106 | the scanner's flags within tags and quotes mean what the reference lexer does |
| XmlScanner.AwaitedInComment | sdk/rms_sdk/RestClients/CXMLUtils.cpp:49-59 | the same within comments |
| XmlScanner.FindTag | sdk/rms_sdk/RestClients/CXMLUtils.cpp:25-112 | the flag-driven loop finds exactly the first tag of that name that the reference lexer yields, or nothing when there is none; when no comment starts inside a tag, that is the first tag of the plain lexer; the tag found has the whole name, and no earlier tag token has |
| XmlScanner.TagFromIsFirst | sdk/rms_sdk/RestClients/CXMLUtils.cpp:60-81 | the first tag that the scanner takes to match is the first tag token whose whole name is the one sought |
| XmlScanner.LexersAgree | sdk/rms_sdk/RestClients/CXMLUtils.cpp:47-109 | the code's lexer and the plain one give the same tokens exactly when they end every tag at the same place |
| XmlScanner.CleanTagsAgree | sdk/rms_sdk/RestClients/CXMLUtils.cpp:49-59 | so they do whenever no comment starts inside a tag |
| XmlScanner.StatesNeverMeet | sdk/rms_sdk/RestClients/CXMLUtils.cpp:82-106 | lexers that differ in the open quote never end a tag at the same place |
| XmlScanner.TagEndsExact | sdk/rms_sdk/RestClients/CXMLUtils.cpp:47-106 | the same at every place that the code comes to in a tag with no comment start left before its end |
| XmlScanner.ResumeIsReached | sdk/rms_sdk/RestClients/CXMLUtils.cpp:47-59 | the code always comes to such a place |
| XmlScanner.CommentInTagExact | sdk/rms_sdk/RestClients/CXMLUtils.cpp:47-106 | for every tag, however many comments start in it, quoted or not: both lexers end it at the same place exactly when they stand with the same quote open behind the last comment the code skips, or when neither ends it |
| XmlScanner.UnquotedDiffers | sdk/rms_sdk/RestClients/CXMLUtils.cpp:49-59 | when the last comment skipped is closed and outside quotes the lexers disagree, unless neither ends the tag |
| XmlScanner.QuotedCommentHides | sdk/rms_sdk/RestClients/CXMLUtils.cpp:49-59 | a short document with a quoted comment start where the code loses the second tag |
| XmlScanner.TagFromBounds | sdk/rms_sdk/RestClients/CXMLUtils.cpp:71-92 | a found tag lies behind the start, begins and ends with its brackets, and has the name |
| XmlScanner.ElementsStep | sdk/rms_sdk/RestClients/CXMLUtils.cpp:114-123 | two searches find the first element of the token list, and the rest of the list is the lexing of the rest |
| XmlScanner.ElementsOrdered | sdk/rms_sdk/RestClients/CXMLUtils.cpp:143-170 | extracted elements are not empty, disjoint and in document order |
| XmlScanner.FirstElementExact | sdk/rms_sdk/RestClients/CXMLUtils.cpp:114-123 | an element opens at the first tag with the name and closes at the first ender behind it; when there is none, no tag of the name has an ender of the name anywhere behind it |
| XmlScanner.ElementsExact | sdk/rms_sdk/RestClients/CXMLUtils.cpp:143-170 | so do all elements, each searched for behind the one before, and none is left behind the last |
| XmlScanner.FindElement | sdk/rms_sdk/RestClients/CXMLUtils.cpp:114-123 | the first element by whole names, or nothing, and then no tag of the name has an ender behind it |
| XmlScanner.ExtractElementAll | sdk/rms_sdk/RestClients/CXMLUtils.cpp:143-170 | the loop ends and yields the text of every element, in document order; when no comment starts inside a tag, those are the elements of the plain lexer; elements are found by whole names, and each text runs from bracket to bracket with its tags or between them without |

## Left out

- ProtectedStream.BlockBasedProtectedStream.ReadAsync: what a stream is after an exception is not modelled. Nothing is assumed about the bytes that the cipher library leaves behind the plain text, except that they depend on those that stood there and on the ciphertext alone; the sources do not contain the library. The lock acquisitions, null-pointer checks and asynchronous launch are left out; an operation is one step. Positions are bounded so that block numbers fit 32 bits. On existing content that can be written, an offset behind the ciphertext, where the source starts to write, is left out.
- ProtectedStream.BlockBasedProtectedStream.SeekInternal: the same bound on positions, and on existing content that can be written.
- ProtectedStream.BlockBasedProtectedStream.WriteAsync: on existing content the offset is within the ciphertext; with padding only the loop itself is stated there, not a content, because the size then counts ciphertext. After a write that shortens a padded stream only its size is stated. On a read-only stream the source unlocks a mutex that it does not hold before it throws (`BlockBasedProtectedStream.cpp:148-152`), which is undefined; the model throws.
- ProtectedStream.BlockBasedProtectedStream.WriteInternalAsync: the same on existing content.
- ProtectedStream.BlockBasedProtectedStream.Size: changing the size of existing content is left out. The backing stream honours Size; `StdStreamAdapter` ignores it.
- ProtectedStream.BlockBasedProtectedStream.FlushAsync: on a read-only stream, where the write to the backing stream would fail, it is left out.
- ProtectedStream.SimpleProtectedStream.Size: locking a mutex twice in one thread is undefined in C++; the model takes it as waiting forever.
- ProviderLoops.Cbc512EncryptLoop: what a too short buffer leads to in the last block is undefined in the source; the model stops with an error of its own.
- ParallelCopy.CopyIsExact: calls of the protected stream are single steps and do not fail; the writer's start position is 0, as for a new file.
- Converter.ConvertFromPFile: the license is not looked up online; the provider is given, and the bytes behind the header are finished ciphertext.
- PfileStreams.Acquire: the license is not looked up online; the provider is given, and the bytes behind the header are finished ciphertext.
- PfileStreams.ReadFile: the same.
- PfileStreams.ReadNumber: where the stream ends within a number the source keeps uninitialised bytes; the model has zeros.
- PfileStreams.Read: the same for a header that is cut off.
- PfileStreams.Create: the policy object is reduced to its serialised license and its provider, and the stream can be written.
- PfileStreams.CreateProtectedFileStream: the stream is always opened; what it denotes is stated for empty content and for finished ciphertext.
- IniFile.Settings.Save: the map is enumerated in any order, of which the source's sorted order is one; files are texts. That all paths have groups is what the source asserts, and setting and loading keep it.
- TokenCache.TokenCache.StoreToCache: when a caller stores one result object under keys of two groups, the objects are described but the store on values is claimed only without sharing; the handlers store a new object each time.
- TokenCache.TokenCache.Deserialize: result texts are parsed by a parameter; a failed parse and a read past the end (undefined in the original) both end with a failure, entries before it kept.
- TokenState.StateRoundTrip: assumes for the stored results that parsing undoes printing, since the JSON library is not part of this model; the state is shorter than 2^31 bytes, the range of its index.
- PolicyCache.PolicyList.Acquire: the policy that a server would return is a parameter; a null license pointer is left out.
- XmlScanner.FindTag: character classes are those of the C locale.
- AES, key storage, random keys and hashes: a key is any permutation of blocks with its inverse.
- The plaintext pass-through of the streams, Clone, and the stream adapters: outside the enciphered path.
- WrapWithRoot, ExtractElementFirst, readItems, deleteItem, beginGroup and the typed getters: easy beside what they call.
- REST clients, service discovery, JSON field mapping, consent and response databases, user interface, logging and dates: network, library or platform wrappers.
